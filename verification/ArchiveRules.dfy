/**
 The package reader's answers: which archives are read and into what, which documents they hold,
 and the first thing wrong with any other.
 */
module ArchiveRules {
  import opened Wrappers
  import opened Unicode
  import opened Json
  import opened CompactScanner
  import opened Package

  // ----- one document

  lemma {:induction false} DecodedEncodes(b: Bytes)
    ensures Utf8Decode(b).Some? ==> Scalar(Utf8Decode(b).value) && Utf8(Utf8Decode(b).value) == b
    decreases |b|
  {
    hide Utf8Char, Utf8Point;
    if b != [] && Utf8Decode(b).Some? {
      var w := Utf8Width(b[0]);
      DecodedEncodes(b[w..]);
      assert b == b[..w] + b[w..];
      assert Utf8Decode(b).value[1..] == Utf8Decode(b[w..]).value;
    }
  }

  lemma TightLoads(m: Reader, t: Text)
    ensures Loads(Tight(m), t).Some? ==> Loads(m, t) == Loads(Tight(m), t)
  {
    hide ParseValue;
    if Loads(Tight(m), t).Some? {
      NoLeadingSpace(Tight(m), t);
      ValueFollows(m, t);
    }
  }

  lemma NoLeadingSpace(m: Reader, t: Text)
    requires ParseValue(m, t).Some?
    ensures t != [] && !IsJsonSpace(t[0])
  {
    hide ParseArray, ParseObject, ParseString, ParseEscape;
    WordsLettered();
    ConstantsLettered();
  }

  lemma ConstantsLettered()
    ensures NAN[0] == 'N' as int && INFINITY[0] == 'I' as int && MINUS_INFINITY[0] == '-' as int
    ensures |NAN| == 3 && |INFINITY| == 8 && |MINUS_INFINITY| == 9
  {
  }

  /** JSON without insignificant white space and without a repeated key. */
  function CompactReader(w: World): Reader {
    Reader(spaces := false, repeats := false, floats := Some(w.python.floats))
  }

  /** The bytes are the UTF-8 of a compact JSON text of the value. */
  ghost predicate Holds(w: World, b: Bytes, v: Value) {
    exists t :: Scalar(t) && Utf8(t) == b && Loads(CompactReader(w), t) == Some(v)
  }

  /** A document is read exactly when it is compact JSON in UTF-8, whatever escapes and number
      forms it uses, and otherwise breaks the schema. */
  lemma DocumentExact(w: World, b: Bytes, v: Value)
    ensures ParseCanonical(w, b) == Success(v) <==> Holds(w, b, v)
    ensures ParseCanonical(w, b).Failure? ==> ParseCanonical(w, b).error == RejectedSchema
  {
    hide Loads, Utf8, Utf8Decode, AcceptsLayout, Scalar, Compact;
    DecodedEncodes(b);
    if Utf8Decode(b).Some? {
      var t := Utf8Decode(b).value;
      TightLoads(Unique(w), t);
      assert Tight(Unique(w)) == CompactReader(w);
      if Loads(Unique(w), t).Some? {
        LoadsValid(Unique(w), t);
        CanonicalTestRedundant(t, Loads(Unique(w), t).value);
        CompactMeansTight(Unique(w), t);
      }
    }
    if Holds(w, b, v) {
      var t :| Scalar(t) && Utf8(t) == b && Loads(CompactReader(w), t) == Some(v);
      Utf8RoundTrip(t);
    }
  }

  // ----- the archive

  datatype ArchiveCheck = SizeFits | IsZip | Opens | CountFits | OnceEach | RequiredSet

  function Place(check: ArchiveCheck): nat {
    match check
    case SizeFits => 0
    case IsZip => 1
    case Opens => 2
    case CountFits => 3
    case OnceEach => 4
    case RequiredSet => 5
  }

  predicate IsMemberName(f: Text) {
    || f == Lit("manifest.json") || f == Lit("evidence.json") || f == Lit("capability-results.json")
    || f == Lit("collection-log.json") || f == Lit("integrity.json") || f == Lit("signatures/submission.sig")
  }

  ghost predicate ArchivePasses(limits: Limits, archive: Archive, check: ArchiveCheck) {
    match check
    case SizeFits => archive.size <= limits.packageSize
    case IsZip => !archive.NotZip?
    case Opens => archive.Zip?
    case CountFits => archive.Zip? && |archive.infos| <= limits.files
    case OnceEach =>
      archive.Zip? && forall i, j :: 0 <= i < j < |archive.infos| ==>
        archive.infos[i].filename != archive.infos[j].filename
    case RequiredSet =>
      && archive.Zip?
      && (forall i :: 0 <= i < |archive.infos| ==> IsMemberName(archive.infos[i].filename))
      && forall f :: IsMemberName(f) ==> exists i :: 0 <= i < |archive.infos| && archive.infos[i].filename == f
  }

  function ArchiveRefusal(check: ArchiveCheck): State {
    match check
    case SizeFits => RejectedPackageLimit
    case IsZip => RejectedArchiveSafety
    case Opens => Uncaught
    case CountFits => RejectedPackageLimit
    case OnceEach => RejectedArchiveSafety
    case RequiredSet => RejectedArchiveSafety
  }

  lemma NamesAre(f: Text)
    ensures f in REQUIRED_FILES <==> IsMemberName(f)
  {
    hide Lit;
    var r := REQUIRED_FILES;
    assert r[0] in r && r[1] in r && r[2] in r && r[3] in r && r[4] in r && r[5] in r;
  }

  lemma SetIs(infos: seq<Info>)
    ensures FileSetRequired(infos) <==>
              && (forall i :: 0 <= i < |infos| ==> IsMemberName(infos[i].filename))
              && forall f :: IsMemberName(f) ==> exists i :: 0 <= i < |infos| && infos[i].filename == f
  {
    hide Lit, IsMemberName;
    forall f
      ensures f in REQUIRED_FILES <==> IsMemberName(f)
    {
      NamesAre(f);
    }
  }

  /** The first test that an archive as a whole fails decides the answer. */
  lemma ArchiveRefused(limits: Limits, archive: Archive, check: ArchiveCheck)
    requires !ArchivePasses(limits, archive, check)
    requires forall earlier :: Place(earlier) < Place(check) ==> ArchivePasses(limits, archive, earlier)
    ensures Members(limits, archive) == Failure(ArchiveRefusal(check))
  {
    hide IsMemberName, Lit, FileSetRequired, ReadInfos;
    assert Place(check) > 0 ==> ArchivePasses(limits, archive, SizeFits);
    assert Place(check) > 1 ==> ArchivePasses(limits, archive, IsZip);
    assert Place(check) > 2 ==> ArchivePasses(limits, archive, Opens);
    assert Place(check) > 3 ==> ArchivePasses(limits, archive, CountFits);
    assert Place(check) > 4 ==> ArchivePasses(limits, archive, OnceEach);
    if archive.Zip? {
      SetIs(archive.infos);
    }
  }

  // ----- its members

  datatype MemberCheck = NoLink | TotalFits | RatioSafe | Intact

  function Rank(check: MemberCheck): nat {
    match check
    case NoLink => 0
    case TotalFits => 1
    case RatioSafe => 2
    case Intact => 3
  }

  /** The sizes of the first n members. */
  function SizeUpTo(infos: seq<Info>, n: nat): int
    requires n <= |infos|
  {
    if n == 0 then 0 else SizeUpTo(infos, n - 1) + infos[n - 1].fileSize
  }

  ghost predicate MemberPasses(limits: Limits, infos: seq<Info>, i: nat, check: MemberCheck)
    requires i < |infos|
  {
    match check
    case NoLink => !infos[i].symlink
    case TotalFits => SizeUpTo(infos, i + 1) <= limits.uncompressedSize
    case RatioSafe => infos[i].fileSize == 0 || infos[i].fileSize <= 100 * infos[i].compressSize
    case Intact => infos[i].content.Some?
  }

  function MemberRefusal(check: MemberCheck): State {
    match check
    case NoLink => RejectedArchiveSafety
    case TotalFits => RejectedPackageLimit
    case RatioSafe => RejectedArchiveSafety
    case Intact => Uncaught
  }

  ghost predicate MembersPass(limits: Limits, infos: seq<Info>, n: nat)
    requires n <= |infos|
  {
    forall i, check :: 0 <= i < n ==> MemberPasses(limits, infos, i, check)
  }

  lemma {:induction false} SizeIs(infos: seq<Info>, n: nat)
    requires n <= |infos|
    ensures SizeUpTo(infos, n) == Total(infos[..n])
  {
    if n > 0 {
      SizeIs(infos, n - 1);
      assert infos[..n][..n - 1] == infos[..n - 1];
    }
  }

  /** The member at i is the last of its name among the first n. */
  predicate LastNamed(infos: seq<Info>, n: nat, i: nat)
    requires i < n <= |infos|
  {
    forall j :: i < j < n ==> infos[j].filename != infos[i].filename
  }

  /** Each name with the content of its last member. */
  ghost predicate ReadInto(infos: seq<Info>, n: nat, members: map<Text, Bytes>)
    requires n <= |infos|
  {
    && (forall f :: f in members ==> exists i :: 0 <= i < n && infos[i].filename == f)
    && forall i :: 0 <= i < n ==>
         && infos[i].filename in members
         && (LastNamed(infos, n, i) ==> infos[i].content == Some(members[infos[i].filename]))
  }

  lemma ReadNext(limits: Limits, infos: seq<Info>, n: nat)
    requires 0 < n <= |infos| && MembersPass(limits, infos, n)
    ensures ReadInfos(limits, infos[..n - 1]).Success? ==>
              && infos[n - 1].content.Some?
              && ReadInfos(limits, infos[..n])
                 == Success(ReadInfos(limits, infos[..n - 1]).value[infos[n - 1].filename :=
                              infos[n - 1].content.value])
  {
    assert infos[..n][..n - 1] == infos[..n - 1] && infos[..n][n - 1] == infos[n - 1];
    SizeIs(infos, n);
    assert MemberPasses(limits, infos, n - 1, NoLink) && MemberPasses(limits, infos, n - 1, TotalFits);
    assert MemberPasses(limits, infos, n - 1, RatioSafe) && MemberPasses(limits, infos, n - 1, Intact);
  }

  lemma ReadIntoNext(infos: seq<Info>, n: nat, members: map<Text, Bytes>)
    requires 0 < n <= |infos| && ReadInto(infos, n - 1, members) && infos[n - 1].content.Some?
    ensures ReadInto(infos, n, members[infos[n - 1].filename := infos[n - 1].content.value])
  {
    hide LastNamed;
    forall i | 0 <= i < n - 1
      ensures LastNamed(infos, n, i) <==> LastNamed(infos, n - 1, i) && infos[n - 1].filename != infos[i].filename
    {
      LastNamedNext(infos, n, i);
    }
  }

  lemma LastNamedNext(infos: seq<Info>, n: nat, i: nat)
    requires i < n - 1 < |infos|
    ensures LastNamed(infos, n, i) <==> LastNamed(infos, n - 1, i) && infos[n - 1].filename != infos[i].filename
  {
  }

  lemma {:induction false} MembersRead(limits: Limits, infos: seq<Info>, n: nat)
    requires n <= |infos| && MembersPass(limits, infos, n)
    ensures ReadInfos(limits, infos[..n]).Success?
    ensures ReadInto(infos, n, ReadInfos(limits, infos[..n]).value)
  {
    hide ReadInto, MemberPasses;
    if n == 0 {
      assert ReadInto(infos, 0, map[]) by {
        NothingRead(infos);
      }
    } else {
      MembersRead(limits, infos, n - 1);
      ReadNext(limits, infos, n);
      ReadIntoNext(infos, n, ReadInfos(limits, infos[..n - 1]).value);
    }
  }

  lemma NothingRead(infos: seq<Info>)
    ensures ReadInto(infos, 0, map[])
  {
  }

  /** The first member with something wrong, and the first thing wrong with it, decide the answer. */
  lemma MemberRefused(limits: Limits, archive: Archive, i: nat, check: MemberCheck)
    requires (forall c :: ArchivePasses(limits, archive, c)) && archive.Zip? && i < |archive.infos|
    requires MembersPass(limits, archive.infos, i) && !MemberPasses(limits, archive.infos, i, check)
    requires forall earlier :: Rank(earlier) < Rank(check) ==> MemberPasses(limits, archive.infos, i, earlier)
    ensures Members(limits, archive) == Failure(MemberRefusal(check))
  {
    hide ReadInfos, ArchivePasses, MembersPass, MemberPasses, MemberRefusal;
    ShapePasses(limits, archive);
    MembersRead(limits, archive.infos, i);
    ReadRefused(limits, archive.infos, i, check);
    ReadInfosFails(limits, archive.infos, i + 1);
  }

  lemma ReadRefused(limits: Limits, infos: seq<Info>, i: nat, check: MemberCheck)
    requires i < |infos| && ReadInfos(limits, infos[..i]).Success? && !MemberPasses(limits, infos, i, check)
    requires forall earlier :: Rank(earlier) < Rank(check) ==> MemberPasses(limits, infos, i, earlier)
    ensures ReadInfos(limits, infos[..i + 1]) == Failure(MemberRefusal(check))
  {
    SizeIs(infos, i + 1);
    assert infos[..i + 1][..i] == infos[..i] && infos[..i + 1][i] == infos[i];
    assert Rank(check) > 0 ==> MemberPasses(limits, infos, i, NoLink);
    assert Rank(check) > 1 ==> MemberPasses(limits, infos, i, TotalFits);
    assert Rank(check) > 2 ==> MemberPasses(limits, infos, i, RatioSafe);
  }

  lemma ShapePasses(limits: Limits, archive: Archive)
    requires forall c :: ArchivePasses(limits, archive, c)
    ensures archive.Zip? && Members(limits, archive) == ReadInfos(limits, archive.infos)
  {
    hide IsMemberName, Lit, FileSetRequired, ReadInfos;
    assert ArchivePasses(limits, archive, SizeFits) && ArchivePasses(limits, archive, Opens);
    assert ArchivePasses(limits, archive, CountFits) && ArchivePasses(limits, archive, OnceEach);
    assert ArchivePasses(limits, archive, RequiredSet);
    SetIs(archive.infos);
  }

  /** An archive with nothing wrong is read into the content of each member under its name. */
  lemma MembersAre(limits: Limits, archive: Archive)
    requires (forall c :: ArchivePasses(limits, archive, c)) && archive.Zip?
    requires MembersPass(limits, archive.infos, |archive.infos|)
    ensures var r := Members(limits, archive);
            && r.Success?
            && (forall f :: f in r.value ==> exists i :: 0 <= i < |archive.infos| && archive.infos[i].filename == f)
            && forall i :: 0 <= i < |archive.infos| ==>
                 && archive.infos[i].filename in r.value
                 && archive.infos[i].content == Some(r.value[archive.infos[i].filename])
  {
    hide ReadInfos, MembersPass;
    var infos := archive.infos;
    ShapePasses(limits, archive);
    MembersRead(limits, infos, |infos|);
    assert infos[..|infos|] == infos;
    assert ArchivePasses(limits, archive, OnceEach);
    assert forall i :: 0 <= i < |infos| ==> LastNamed(infos, |infos|, i);
  }
}
