/** The digest an operator confirms: it ignores the run and commits to everything else. */
module PlanDigest {
  import opened Wrappers
  import opened Unicode
  import opened Json
  import opened Canonical
  import opened PrintedForm
  import opened Fields
  import opened ValidatorRegistry
  import opened Planner

  function RiskText(r: Risk): Text {
    match r
    case SafeReadOnly => Lit("SAFE_READ_ONLY")
    case LowImpact => Lit("LOW_IMPACT")
    case ControlledTemporaryChange => Lit("CONTROLLED_TEMPORARY_CHANGE")
    case Restricted => Lit("RESTRICTED")
    case Prohibited => Lit("PROHIBITED")
  }

  lemma RiskTextInjective(a: Risk, b: Risk)
    requires RiskText(a) == RiskText(b)
    ensures a == b
  {
    assert RiskText(SafeReadOnly)[0] == 'S' as int && RiskText(LowImpact)[0] == 'L' as int;
    assert RiskText(ControlledTemporaryChange)[0] == 'C' as int;
    assert RiskText(Restricted)[0] == 'R' as int && RiskText(Prohibited)[0] == 'P' as int;
  }

  function ProfileValue(profile: Option<Text>): Value {
    if profile.Some? then Str(profile.value) else Null
  }

  const KEYS: seq<string> := [
    "validatorId", "validatorVersion", "timeoutSeconds", "riskLevel", "requiresRollback", "sequence", "profile"
  ]

  function ItemFields(p: ValidationPlan): seq<Value> {
    [Str(p.validatorId), Str(p.version), Int(p.timeout), Str(RiskText(p.risk)),
     Bool(p.requiresRollback), Int(p.sequence), ProfileValue(p.profile)]
  }

  function ItemDocument(p: ValidationPlan): (es: seq<Entry>)
    ensures |es| == 7
    ensures forall i :: 0 <= i < 7 ==> es[i] == Entry(Lit(KEYS[i]), ItemFields(p)[i])
  {
    [ Entry(Lit("validatorId"), Str(p.validatorId)),
      Entry(Lit("validatorVersion"), Str(p.version)),
      Entry(Lit("timeoutSeconds"), Int(p.timeout)),
      Entry(Lit("riskLevel"), Str(RiskText(p.risk))),
      Entry(Lit("requiresRollback"), Bool(p.requiresRollback)),
      Entry(Lit("sequence"), Int(p.sequence)),
      Entry(Lit("profile"), ProfileValue(p.profile)) ]
  }

  function ItemDocuments(plans: seq<ValidationPlan>): (r: seq<Value>)
    ensures |r| == |plans| && forall i :: 0 <= i < |r| ==> r[i] == Obj(ItemDocument(plans[i]))
  {
    seq(|plans|, i requires 0 <= i < |plans| => Obj(ItemDocument(plans[i])))
  }

  function PlanDocument(plans: seq<ValidationPlan>, transport: Value): Value {
    Obj([Entry(Lit("validators"), Arr(ItemDocuments(plans))), Entry(Lit("liveTransport"), transport)])
  }

  /** `plan_digest`; None when the text holds a lone surrogate and cannot be encoded. */
  function Digest(sha256: Bytes -> Text, plans: seq<ValidationPlan>, transport: Value): Option<Text> {
    var text := CanonicalJson(PlanDocument(plans, transport));
    if Scalar(text) then Some(sha256(Utf8(text))) else None
  }

  /** A plan without its run. */
  function Confirmed(p: ValidationPlan): ValidationPlan { p.(runId := [], temporaryPrefix := []) }

  function ConfirmedAll(plans: seq<ValidationPlan>): seq<ValidationPlan> {
    seq(|plans|, i requires 0 <= i < |plans| => Confirmed(plans[i]))
  }

  lemma KeysDiffer(i: nat, j: nat)
    requires i < j < 7
    ensures Lit(KEYS[i]) != Lit(KEYS[j])
  {
    assert |KEYS[0]| == 11 && |KEYS[1]| == 16 && |KEYS[2]| == 14 && |KEYS[3]| == 9;
    assert |KEYS[4]| == 16 && |KEYS[5]| == 8 && |KEYS[6]| == 7;
    assert KEYS[1][0] == 'v' && KEYS[4][0] == 'r';
    assert Lit(KEYS[1])[0] != Lit(KEYS[4])[0];
  }

  lemma ItemValid(p: ValidationPlan)
    ensures Valid(Obj(ItemDocument(p)))
  {
    hide CanonicalJson, Lit, RiskText;
    var es := ItemDocument(p);
    forall i, j | 0 <= i < j < |es|
      ensures es[i].key != es[j].key
    {
      KeysDiffer(i, j);
    }
    forall e | e in es
      ensures Valid(e.value)
    {
      var i :| 0 <= i < |es| && es[i] == e;
      assert ItemFields(p)[i] in ItemFields(p);
    }
  }

  lemma DocumentValid(plans: seq<ValidationPlan>, transport: Value)
    requires Valid(transport)
    ensures Valid(PlanDocument(plans, transport))
  {
    var items := ItemDocuments(plans);
    forall x | x in items
      ensures Valid(x)
    {
      var i :| 0 <= i < |items| && items[i] == x;
      ItemValid(plans[i]);
    }
    assert |Lit("validators")| != |Lit("liveTransport")|;
  }

  /** Dicts over the same distinct keys are equal only field by field. */
  lemma ItemFieldsSame(p: ValidationPlan, q: ValidationPlan, i: nat)
    requires i < 7 && Same(Obj(ItemDocument(p)), Obj(ItemDocument(q)))
    ensures Same(ItemFields(p)[i], ItemFields(q)[i])
  {
    hide Lit, RiskText, Same;
    var a, b := ItemDocument(p), ItemDocument(q);
    assert a[i] in a;
    var f := SameEntry(a, b, a[i]);
    var j :| 0 <= j < |b| && b[j] == f;
    if i < j {
      KeysDiffer(i, j);
    } else if j < i {
      KeysDiffer(j, i);
    }
  }

  lemma ItemSame(p: ValidationPlan, q: ValidationPlan)
    requires Same(Obj(ItemDocument(p)), Obj(ItemDocument(q)))
    ensures Confirmed(p) == Confirmed(q)
  {
    hide RiskText, ItemDocument;
    ItemFieldsSame(p, q, 0);
    ItemFieldsSame(p, q, 1);
    ItemFieldsSame(p, q, 2);
    ItemFieldsSame(p, q, 3);
    ItemFieldsSame(p, q, 4);
    ItemFieldsSame(p, q, 5);
    ItemFieldsSame(p, q, 6);
    RiskTextInjective(p.risk, q.risk);
  }

  lemma PairSame(k: Text, l: Text, v: Value, w: Value, s: Value, t: Value)
    requires k != l && Same(Obj([Entry(k, v), Entry(l, s)]), Obj([Entry(k, w), Entry(l, t)]))
    ensures Same(v, w) && Same(s, t)
  {
    hide Same;
    var es, fs := [Entry(k, v), Entry(l, s)], [Entry(k, w), Entry(l, t)];
    assert es[0] in es && es[1] in es;
    var f := SameEntry(es, fs, es[0]);
    var g := SameEntry(es, fs, es[1]);
  }

  lemma DocumentSame(a: seq<ValidationPlan>, b: seq<ValidationPlan>, s: Value, t: Value)
    requires Same(PlanDocument(a, s), PlanDocument(b, t))
    ensures ConfirmedAll(a) == ConfirmedAll(b) && Same(s, t)
  {
    hide ItemDocument, RiskText, Confirmed, Same;
    var v, w := Arr(ItemDocuments(a)), Arr(ItemDocuments(b));
    assert |Lit("validators")| != |Lit("liveTransport")|;
    PairSame(Lit("validators"), Lit("liveTransport"), v, w, s, t);
    SameItems(v.items, w.items);
    forall i | 0 <= i < |a|
      ensures Confirmed(a[i]) == Confirmed(b[i])
    {
      ItemSame(a[i], b[i]);
    }
  }

  /** Planning the same selection for another run, listed in another order, asks the
      operator to confirm the same digest. */
  lemma DigestIsRunIndependent(sha256: Bytes -> Text, reg: Registry, at: Setting, run: Text, other: Text,
                               a: seq<Id>, b: seq<Id>, transport: Value)
    requires multiset(a) == multiset(b) && PlanOf(reg, at, run, a).Success?
    ensures PlanOf(reg, at, other, b).Success?
    ensures Digest(sha256, PlanOf(reg, at, run, a).value, transport)
            == Digest(sha256, PlanOf(reg, at, other, b).value, transport)
  {
    hide PlanOf, Lit, CanonicalJson, RiskText;
    PlanningIsRunIndependent(reg, at, run, other, a, b);
    var p, q := PlanOf(reg, at, run, a).value, PlanOf(reg, at, other, b).value;
    forall i | 0 <= i < |p|
      ensures ItemDocuments(p)[i] == ItemDocuments(q)[i]
    {
      assert q[i] == p[i].(runId := q[i].runId, temporaryPrefix := q[i].temporaryPrefix);
      assert ItemDocument(p[i]) == ItemDocument(q[i]);
    }
    assert ItemDocuments(p) == ItemDocuments(q);
  }

  /** One confirmed digest stands for one list of plans and one transport configuration,
      whatever the runs, or two texts with one hash are exhibited. */
  lemma DigestCommits(sha256: Bytes -> Text, a: seq<ValidationPlan>, b: seq<ValidationPlan>, s: Value, t: Value)
    returns (x: Bytes, y: Bytes)
    requires Valid(s) && Valid(t)
    requires Digest(sha256, a, s).Some? && Digest(sha256, a, s) == Digest(sha256, b, t)
    ensures (x != y && sha256(x) == sha256(y)) || (ConfirmedAll(a) == ConfirmedAll(b) && Same(s, t))
  {
    hide PlanDocument, CanonicalJson, ConfirmedAll;
    var p, q := CanonicalJson(PlanDocument(a, s)), CanonicalJson(PlanDocument(b, t));
    x, y := Utf8(p), Utf8(q);
    if x == y {
      Utf8Injective(p, q);
      DocumentValid(a, s);
      DocumentValid(b, t);
      CanonicalJsonInjective(PlanDocument(a, s), PlanDocument(b, t));
      DocumentSame(a, b, s, t);
    }
  }

  // ----- what is hashed

  /** The seven fields of one plan that are confirmed. */
  ghost predicate ItemReads(v: Value, p: ValidationPlan) {
    && v.Obj?
    && Dict(v.entries, ["validatorId", "validatorVersion", "timeoutSeconds", "riskLevel", "requiresRollback",
                        "sequence", "profile"])
    && Field(v.entries, "validatorId") == Str(p.validatorId) && Field(v.entries, "validatorVersion") == Str(p.version)
    && Field(v.entries, "timeoutSeconds") == Int(p.timeout) && Field(v.entries, "sequence") == Int(p.sequence)
    && Field(v.entries, "requiresRollback") == Bool(p.requiresRollback)
    && Field(v.entries, "profile") == (if p.profile.Some? then Str(p.profile.value) else Null)
    && Field(v.entries, "riskLevel") == Str(Lit(match p.risk
         case SafeReadOnly => "SAFE_READ_ONLY"
         case LowImpact => "LOW_IMPACT"
         case ControlledTemporaryChange => "CONTROLLED_TEMPORARY_CHANGE"
         case Restricted => "RESTRICTED"
         case Prohibited => "PROHIBITED"))
  }

  ghost predicate PlanReads(v: Value, plans: seq<ValidationPlan>, transport: Value) {
    && v.Obj? && Dict(v.entries, ["validators", "liveTransport"]) && Field(v.entries, "liveTransport") == transport
    && var items := Field(v.entries, "validators");
       items.Arr? && |items.items| == |plans| && forall i :: 0 <= i < |plans| ==> ItemReads(items.items[i], plans[i])
  }

  lemma KeysApart()
    ensures forall i, j :: 0 <= i < j < 7 ==> KEYS[i] != KEYS[j]
  {
    assert |KEYS[0]| == 11 && |KEYS[1]| == 16 && |KEYS[2]| == 14 && |KEYS[3]| == 9;
    assert |KEYS[4]| == 16 && |KEYS[5]| == 8 && |KEYS[6]| == 7 && KEYS[1][0] != KEYS[4][0];
  }

  lemma ItemIs(p: ValidationPlan)
    ensures ItemReads(Obj(ItemDocument(p)), p)
  {
    hide Field, Lit, Present, ItemDocument, Dict;
    var es := ItemDocument(p);
    KeysApart();
    DictIs(es, KEYS);
    assert Field(es, KEYS[0]) == Str(p.validatorId) && Field(es, KEYS[1]) == Str(p.version);
    assert Field(es, KEYS[2]) == Int(p.timeout) && Field(es, KEYS[3]) == Str(RiskText(p.risk));
    assert Field(es, KEYS[4]) == Bool(p.requiresRollback) && Field(es, KEYS[5]) == Int(p.sequence);
    assert Field(es, KEYS[6]) == ProfileValue(p.profile);
  }

  lemma PlanIs(plans: seq<ValidationPlan>, transport: Value)
    ensures PlanReads(PlanDocument(plans, transport), plans, transport)
  {
    hide Field, Lit, ItemReads, ItemDocument;
    var es := PlanDocument(plans, transport).entries;
    var names := ["validators", "liveTransport"];
    assert |names[0]| != |names[1]|;
    DictIs(es, names);
    assert Field(es, names[0]) == es[0].value && Field(es, names[1]) == es[1].value;
    forall i | 0 <= i < |plans|
      ensures ItemReads(ItemDocuments(plans)[i], plans[i])
    {
      ItemIs(plans[i]);
    }
  }

  /** The digest is that of the canonical text of the plans' confirmed fields and the transport, and
      there is none exactly when that holds a lone surrogate. */
  lemma DigestReads(sha256: Bytes -> Text, plans: seq<ValidationPlan>, transport: Value) returns (v: Value)
    requires Valid(transport)
    ensures PlanReads(v, plans, transport) && (Digest(sha256, plans, transport).Some? <==> AllScalar(v))
    ensures forall d :: Digest(sha256, plans, transport) == Some(d) ==> exists b :: Encodes(b, v) && d == sha256(b)
  {
    hide PlanDocument, PlanReads, Encodes, CanonicalJson, Scalar, AllScalar;
    v := PlanDocument(plans, transport);
    PlanIs(plans, transport);
    DocumentValid(plans, transport);
    EncodesIs(v);
  }
}
