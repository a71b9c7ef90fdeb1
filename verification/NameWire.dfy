/**
 LLMNR and NetBIOS name service messages as bytes (section 2.1 of RFC 4795, section 4.1.2 of
 RFC 1035, section 14.1 of RFC 1001, sections 4.2.12 and 4.2.13 of RFC 1002). A byte is a
 number below 256.
 */
module NameWire {
  import opened Wrappers
  import opened Unicode

  datatype WireError =
    | BadSize | BadQuestionCount | BadLabel | NotAscii | TypeMissing | BadEncoding | BadType | BadAddress

  predicate IsBytes(b: Bytes) { forall x :: x in b ==> x < 256 }

  predicate IsAscii(b: Bytes) { forall x :: x in b ==> x < 128 }

  function UpperChar(c: nat): nat { if 97 <= c <= 122 then c - 32 else c }

  /** `str.upper` on ASCII. */
  function Upper(t: Text): (r: Text)
    ensures |r| == |t|
    ensures forall i :: 0 <= i < |t| ==> r[i] == UpperChar(t[i])
  {
    seq(|t|, i requires 0 <= i < |t| => UpperChar(t[i]))
  }

  const DOT: nat := 46

  /** `".".join(labels)`. */
  function Join(labels: seq<Text>): Text {
    if labels == [] then [] else if |labels| == 1 then labels[0] else labels[0] + [DOT] + Join(labels[1..])
  }

  // ----- the label loop

  datatype Walk = Walk(labels: seq<Text>, cursor: nat)

  /** The labels from the cursor on, and where the walk stops. */
  function Labels(payload: Bytes, cursor: nat): (r: Result<Walk, WireError>)
    ensures r.Success? ==> cursor <= r.value.cursor && (cursor <= |payload| ==> r.value.cursor <= |payload|)
    decreases |payload| - cursor
  {
    if cursor >= |payload| then Success(Walk([], cursor))
    else
      var size := payload[cursor];
      if size == 0 then Success(Walk([], cursor + 1))
      else if size > 63 || cursor + 1 + size > |payload| then Failure(BadLabel)
      else
        var piece := payload[cursor + 1..cursor + 1 + size];
        if !IsAscii(piece) then Failure(NotAscii)
        else
          var rest :- Labels(payload, cursor + 1 + size);
          Success(Walk([piece] + rest.labels, rest.cursor))
  }

  datatype Query = Query(name: Text, transactionId: Bytes)

  function NameQuery(payload: Bytes): Result<Query, WireError> {
    if !(17 <= |payload| <= 512) then Failure(BadSize)
    else if payload[4] * 256 + payload[5] != 1 then Failure(BadQuestionCount)
    else
      var walk :- Labels(payload, 12);
      if walk.cursor + 4 > |payload| then Failure(TypeMissing)
      else Success(Query(Upper(Join(walk.labels)), payload[..2]))
  }

  /** `parse_name_query`: the cursor never leaves the payload. */
  method ParseNameQuery(payload: Bytes) returns (r: Result<Query, WireError>)
    ensures r == NameQuery(payload)
  {
    if !(17 <= |payload| <= 512) {
      return Failure(BadSize);
    }
    if payload[4] * 256 + payload[5] != 1 {
      return Failure(BadQuestionCount);
    }
    var cursor, labels: seq<Text> := 12, [];
    var open := true;
    PrependNothing(Labels(payload, 12));
    while cursor < |payload| && open
      invariant cursor <= |payload|
      invariant Labels(payload, 12)
                == if open then Prepend(labels, Labels(payload, cursor)) else Success(Walk(labels, cursor))
      decreases |payload| - cursor
    {
      var size := payload[cursor];
      if size == 0 {
        cursor := cursor + 1;
        open := false;
        assert labels + [] == labels;
      } else {
        if size > 63 || cursor + 1 + size > |payload| {
          return Failure(BadLabel);
        }
        var piece := payload[cursor + 1..cursor + 1 + size];
        if !IsAscii(piece) {
          return Failure(NotAscii);
        }
        PrependOne(labels, piece, Labels(payload, cursor + 1 + size));
        labels := labels + [piece];
        cursor := cursor + 1 + size;
      }
    }
    assert labels + [] == labels;
    if cursor + 4 > |payload| {
      return Failure(TypeMissing);
    }
    return Success(Query(Upper(Join(labels)), payload[..2]));
  }

  function Prepend(labels: seq<Text>, r: Result<Walk, WireError>): Result<Walk, WireError> {
    if r.Failure? then r else Success(Walk(labels + r.value.labels, r.value.cursor))
  }

  lemma PrependNothing(r: Result<Walk, WireError>)
    ensures Prepend([], r) == r
  {
    if r.Success? {
      assert [] + r.value.labels == r.value.labels;
    }
  }

  lemma PrependOne(labels: seq<Text>, piece: Text, r: Result<Walk, WireError>)
    ensures Prepend(labels, Prepend([piece], r)) == Prepend(labels + [piece], r)
  {
    if r.Success? {
      assert labels + ([piece] + r.value.labels) == (labels + [piece]) + r.value.labels;
    }
  }

  // ----- round trip of a query

  /** A label section 2.3.4 of RFC 1035 allows, in ASCII. */
  predicate LegalLabel(piece: Text) { 1 <= |piece| <= 63 && IsAscii(piece) }

  predicate LegalName(labels: seq<Text>) { forall i :: 0 <= i < |labels| ==> LegalLabel(labels[i]) }

  function EncodeName(labels: seq<Text>): Bytes {
    if labels == [] then [0] else [|labels[0]|] + labels[0] + EncodeName(labels[1..])
  }

  /** A query with one question: identifier, flags, counts, name, type and class. */
  function EncodeQuery(id: Bytes, flags: Bytes, labels: seq<Text>, question: Bytes): Bytes {
    id + flags + [0, 1, 0, 0, 0, 0, 0, 0] + EncodeName(labels) + question
  }

  lemma {:induction false} LabelsOfName(before: Bytes, labels: seq<Text>, after: Bytes)
    requires LegalName(labels)
    ensures Labels(before + EncodeName(labels) + after, |before|)
            == Success(Walk(labels, |before| + |EncodeName(labels)|))
    decreases |labels|
  {
    var payload := before + EncodeName(labels) + after;
    if labels == [] {
      assert payload[|before|] == 0;
    } else {
      var piece := labels[0];
      var next := before + [|piece|] + piece;
      assert LegalLabel(piece);
      assert payload == next + EncodeName(labels[1..]) + after;
      assert payload[|before|] == |piece|;
      assert payload[|before| + 1..|before| + 1 + |piece|] == piece;
      LabelsOfName(next, labels[1..], after);
      assert [piece] + labels[1..] == labels;
    }
  }

  /** Parsing an encoded query gives the upper-cased name and the identifier back. */
  lemma QueryRoundTrip(id: Bytes, flags: Bytes, labels: seq<Text>, question: Bytes)
    requires |id| == 2 && |flags| == 2 && |question| == 4 && LegalName(labels)
    requires |EncodeQuery(id, flags, labels, question)| <= 512
    ensures NameQuery(EncodeQuery(id, flags, labels, question)) == Success(Query(Upper(Join(labels)), id))
  {
    var header := id + flags + [0, 1, 0, 0, 0, 0, 0, 0];
    var payload := EncodeQuery(id, flags, labels, question);
    LabelsOfName(header, labels, question);
    assert payload[4] == 0 && payload[5] == 1 && payload[..2] == id;
    EncodedLength(labels);
  }

  lemma EncodedLength(labels: seq<Text>)
    ensures |EncodeName(labels)| >= 1
  {
  }

  // ----- LLMNR responses

  predicate HexUpper(c: nat) { 48 <= c <= 57 || 65 <= c <= 70 }

  predicate AllHex(t: Text) { forall c :: c in t ==> HexUpper(c) }

  /** `MARKER_PATTERN`. */
  predicate MarkerPattern(t: Text) {
    || (|t| == 23 && t[..8] == Lit("CSA-RSP-") && AllHex(t[8..16]) && t[16] == '-' as int && AllHex(t[17..]))
    || (|t| == 15 && t[..5] == Lit("CSAR-") && AllHex(t[5..]))
  }

  /** `ipaddress.ip_address` of the configured text. */
  datatype Address = V4(packed: Bytes) | V6 | Unparsable

  predicate Scoped(a: Address) {
    a.V4? && |a.packed| == 4 && a.packed != [0, 0, 0, 0] && !(224 <= a.packed[0] <= 239)
  }

  const LLMNR_FLAGS: Bytes := [0x80, 0, 0, 1, 0, 1, 0, 0, 0, 0]
  const LLMNR_ANSWER: Bytes := [0xC0, 0x0C, 0, 1, 0, 1, 0, 0, 0, 0x1E, 0, 4]

  function LlmnrResponse(query: Bytes, marker: Text, address: Address): Result<Option<Bytes>, WireError> {
    var q :- NameQuery(query);
    if q.name != marker || !MarkerPattern(q.name) then Success(None)
    else if !Scoped(address) then Failure(BadAddress)
    else Success(Some(q.transactionId + LLMNR_FLAGS + query[12..] + LLMNR_ANSWER + address.packed))
  }

  /** Payloads that agree up to where a walk ends have the same walk. */
  lemma {:induction false} LabelsAgree(a: Bytes, b: Bytes, cursor: nat)
    requires Labels(a, cursor).Success? && Labels(a, cursor).value.cursor <= |b| && cursor < |a|
    requires Labels(a, cursor).value.cursor < |a|
    requires forall i :: cursor <= i < Labels(a, cursor).value.cursor ==> i < |b| && a[i] == b[i]
    ensures Labels(b, cursor) == Labels(a, cursor)
    decreases |a| - cursor
  {
    var size := a[cursor];
    var end := Labels(a, cursor).value.cursor;
    if size != 0 {
      assert end >= cursor + 1 + size;
      assert a[cursor + 1..cursor + 1 + size] == b[cursor + 1..cursor + 1 + size];
      LabelsAgree(a, b, cursor + 1 + size);
    }
  }

  /** A response answers the marker it was asked for and no other name, and it parses as a
      query for the same marker and identifier exactly when the query leaves the answer room
      within 512 bytes. */
  lemma LlmnrReparses(query: Bytes, marker: Text, address: Address)
    requires LlmnrResponse(query, marker, address).Success? && LlmnrResponse(query, marker, address).value.Some?
    ensures MarkerPattern(marker) && Scoped(address) && NameQuery(query) == Success(Query(marker, query[..2]))
    ensures NameQuery(LlmnrResponse(query, marker, address).value.value)
            == if |query| <= 496 then Success(Query(marker, query[..2])) else Failure(BadSize)
  {
    var response := LlmnrResponse(query, marker, address).value.value;
    var head := query[..2] + LLMNR_FLAGS;
    var walk := Labels(query, 12).value;
    assert |head| == 12 && |response| == |query| + 16;
    assert response[4] == 0 && response[5] == 1 && response[..2] == query[..2];
    forall i | 12 <= i < |query|
      ensures response[i] == query[i]
    {
      assert (head + query[12..])[i] == query[12..][i - 12];
    }
    LabelsAgree(query, response, 12);
  }

  // ----- NetBIOS names

  /** `str.rstrip` on ASCII. */
  predicate Space(c: nat) { c == 32 || 9 <= c <= 13 || 28 <= c <= 31 }

  function RightStrip(t: Text): Text {
    if t != [] && Space(t[|t| - 1]) then RightStrip(t[..|t| - 1]) else t
  }

  function DecodePairs(encoded: Bytes): Bytes
    requires |encoded| % 2 == 0 && forall x :: x in encoded ==> 65 <= x <= 80
  {
    if encoded == [] then []
    else
      assert encoded[0] in encoded && encoded[1] in encoded && forall x :: x in encoded[2..] ==> x in encoded;
      [(encoded[0] - 65) * 16 + (encoded[1] - 65)] + DecodePairs(encoded[2..])
  }

  const NB_QUESTION: Bytes := [0, 0x20, 0, 1]

  function NbtnsQuery(payload: Bytes): Result<Query, WireError> {
    if !(50 <= |payload| <= 512) || payload[12] != 32 then Failure(BadSize)
    else
      var encoded := payload[13..45];
      if exists x :: x in encoded && (x < 65 || x > 80) then Failure(BadEncoding)
      else
        var name := DecodedName(encoded);
        if !IsAscii(name) then Failure(NotAscii)
        else if payload[45] != 0 || payload[46..50] != NB_QUESTION then Failure(BadType)
        else Success(Query(Upper(RightStrip(name)), payload[..2]))
  }

  function DecodedName(encoded: Bytes): Bytes
    requires |encoded| == 32 && forall x :: x in encoded ==> 65 <= x <= 80
  {
    DecodedLength(encoded);
    DecodePairs(encoded)[..15]
  }

  lemma {:induction false} DecodedLength(encoded: Bytes)
    requires |encoded| % 2 == 0 && forall x :: x in encoded ==> 65 <= x <= 80
    ensures |DecodePairs(encoded)| == |encoded| / 2
  {
    if encoded == [] {
    } else {
      assert forall x :: x in encoded[2..] ==> x in encoded;
      DecodedLength(encoded[2..]);
    }
  }

  /** First-level encoding: the two halves of each byte as letters from A. */
  function EncodePairs(b: Bytes): (r: Bytes)
    requires IsBytes(b)
    ensures |r| == 2 * |b|
  {
    if b == [] then []
    else
      assert forall x :: x in b[1..] ==> x in b;
      [65 + b[0] / 16, 65 + b[0] % 16] + EncodePairs(b[1..])
  }

  lemma {:induction false} PairsRoundTrip(b: Bytes)
    requires IsBytes(b)
    ensures forall x :: x in EncodePairs(b) ==> 65 <= x <= 80
    ensures DecodePairs(EncodePairs(b)) == b
  {
    if b == [] {
    } else {
      assert b[0] in b;
      assert forall x :: x in b[1..] ==> x in b;
      PairsRoundTrip(b[1..]);
      var e := EncodePairs(b);
      assert e[2..] == EncodePairs(b[1..]);
      assert b[0] / 16 * 16 + b[0] % 16 == b[0];
      assert b == [b[0]] + b[1..];
    }
  }

  function Pad(name: Text): Text
    decreases 15 - |name|
  {
    if |name| >= 15 then name else Pad(name + [32])
  }

  lemma {:induction false} PadStrips(name: Text)
    requires |name| <= 15
    ensures |Pad(name)| == 15 && RightStrip(Pad(name)) == RightStrip(name)
    ensures IsAscii(name) ==> IsAscii(Pad(name))
    decreases 15 - |name|
  {
    if |name| < 15 {
      PadStrips(name + [32]);
      assert (name + [32])[..|name|] == name;
    }
  }

  /** A NetBIOS query: header, the padded name and its suffix byte, type and class. */
  function EncodeNbtns(id: Bytes, middle: Bytes, name: Text, suffix: nat): Bytes
    requires IsAscii(name) && suffix < 256
  {
    id + middle + [32] + EncodePairs(Block(name, suffix)) + [0] + NB_QUESTION
  }

  function Block(name: Text, suffix: nat): (b: Bytes)
    requires IsAscii(name) && suffix < 256
    ensures IsBytes(b)
  {
    PadAscii(name);
    Pad(name) + [suffix]
  }

  lemma {:induction false} PadAscii(name: Text)
    requires IsAscii(name)
    ensures IsAscii(Pad(name))
    decreases 15 - |name|
  {
    if |name| < 15 {
      PadAscii(name + [32]);
    }
  }

  /** Parsing an encoded NetBIOS query gives the upper-cased name and the identifier back,
      for every ASCII name that fits and does not end in white space. */
  lemma NbtnsRoundTrip(id: Bytes, middle: Bytes, name: Text, suffix: nat)
    requires |id| == 2 && |middle| == 10 && |name| <= 15 && IsAscii(name) && suffix < 256
    requires RightStrip(name) == name
    ensures NbtnsQuery(EncodeNbtns(id, middle, name, suffix)) == Success(Query(Upper(name), id))
  {
    hide EncodePairs, DecodePairs, RightStrip, Upper, Pad;
    var payload, block := EncodeNbtns(id, middle, name, suffix), Block(name, suffix);
    PadStrips(name);
    PairsRoundTrip(block);
    NbtnsParts(id, middle, EncodePairs(block));
    assert block[..15] == Pad(name);
  }

  lemma NbtnsParts(id: Bytes, middle: Bytes, encoded: Bytes)
    requires |id| == 2 && |middle| == 10 && |encoded| == 32
    ensures var payload := id + middle + [32] + encoded + [0] + NB_QUESTION;
            && |payload| == 50 && payload[12] == 32 && payload[45] == 0 && payload[13..45] == encoded
            && payload[46..50] == NB_QUESTION && payload[..2] == id
  {
    var payload := id + middle + [32] + encoded + [0] + NB_QUESTION;
    assert payload[13..45] == encoded;
    assert payload[46..50] == NB_QUESTION;
    assert payload[..2] == id;
  }

  const NB_FLAGS: Bytes := [0x85, 0, 0, 0, 0, 1, 0, 0, 0, 0]

  function NbtnsResponse(query: Bytes, marker: Text, address: Address): Result<Option<Bytes>, WireError> {
    var q :- NbtnsQuery(query);
    if q.name != marker || !MarkerPattern(q.name) then Success(None)
    else if !Scoped(address) then Failure(BadAddress)
    else
      var record := query[12..46] + NB_QUESTION + [0, 0, 0, 0x1E] + [0, 6, 0, 0] + address.packed;
      Success(Some(q.transactionId + NB_FLAGS + record))
  }

  /** A NetBIOS response carries the query's name field: it decodes, with the identifier, to
      the very marker that was asked for. */
  lemma NbtnsReparses(query: Bytes, marker: Text, address: Address)
    requires NbtnsResponse(query, marker, address).Success? && NbtnsResponse(query, marker, address).value.Some?
    ensures MarkerPattern(marker) && Scoped(address)
    ensures |NbtnsResponse(query, marker, address).value.value| == 62
    ensures NbtnsQuery(query) == Success(Query(marker, query[..2]))
    ensures NbtnsQuery(NbtnsResponse(query, marker, address).value.value) == NbtnsQuery(query)
  {
    var response := NbtnsResponse(query, marker, address).value.value;
    var head := query[..2] + NB_FLAGS;
    assert |head| == 12;
    assert response[12..46] == query[12..46];
    assert response[12] == query[12..46][0] && response[45] == query[12..46][33];
    assert response[13..45] == query[12..46][1..33] && query[13..45] == query[12..46][1..33];
    assert response[46..50] == NB_QUESTION && response[..2] == query[..2];
  }
}
