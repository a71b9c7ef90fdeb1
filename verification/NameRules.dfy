/**
 Which payloads are name queries and what is answered, byte by byte: the converse of the round
 trips, so that nothing else is taken for a query and every response is the one laid out here.
 */
module NameRules {
  import opened Wrappers
  import opened Unicode
  import opened NameWire

  // ----- names

  /** The labels between dots, from the last one on. */
  function Dotted(labels: seq<Text>): Text {
    if labels == [] then []
    else if |labels| == 1 then labels[0]
    else Dotted(labels[..|labels| - 1]) + Lit(".") + labels[|labels| - 1]
  }

  lemma {:induction false} JoinLast(labels: seq<Text>)
    requires |labels| > 1
    ensures Join(labels) == Join(labels[..|labels| - 1]) + [DOT] + labels[|labels| - 1]
  {
    if |labels| > 2 {
      JoinLast(labels[1..]);
      assert labels[1..][..|labels| - 2] == labels[..|labels| - 1][1..];
    } else {
      assert labels[1..] == [labels[1]] && labels[..1] == [labels[0]];
    }
  }

  lemma {:induction false} JoinIs(labels: seq<Text>)
    ensures Join(labels) == Dotted(labels)
  {
    if |labels| > 1 {
      JoinLast(labels);
      JoinIs(labels[..|labels| - 1]);
    }
  }

  /** t with its letters a to z as A to Z. */
  predicate Raised(t: Text, r: Text) {
    |r| == |t| && forall i :: 0 <= i < |t| ==>
      r[i] as int == if 'a' as int <= t[i] <= 'z' as int then t[i] - 'a' as int + 'A' as int else t[i]
  }

  lemma RaisedIs(t: Text, r: Text)
    ensures Raised(t, r) <==> r == Upper(t)
  {
  }

  /** A label that fits its length byte and is ASCII. */
  predicate Plain(piece: Text) { 0 < |piece| < 64 && forall i :: 0 <= i < |piece| ==> piece[i] < 128 }

  /** One length byte and the label, for each label. */
  function Prefixed(labels: seq<Text>): Bytes {
    if labels == [] then []
    else Prefixed(labels[..|labels| - 1]) + [|labels[|labels| - 1]|] + labels[|labels| - 1]
  }

  lemma {:induction false} PrefixedFirst(labels: seq<Text>)
    requires labels != []
    ensures Prefixed(labels) == [|labels[0]|] + labels[0] + Prefixed(labels[1..])
  {
    if |labels| > 1 {
      PrefixedFirst(labels[..|labels| - 1]);
      assert labels[..|labels| - 1][1..] == labels[1..][..|labels| - 2];
    } else {
      assert labels[..0] == [] && labels[1..] == [];
    }
  }

  lemma {:induction false} EncodeIs(labels: seq<Text>)
    ensures EncodeName(labels) == Prefixed(labels) + [0]
  {
    if labels == [] {
    } else {
      EncodeIs(labels[1..]);
      PrefixedFirst(labels);
    }
  }

  lemma PlainIs(piece: Text)
    ensures LegalLabel(piece) <==> Plain(piece)
  {
    if IsAscii(piece) {
      forall i | 0 <= i < |piece|
        ensures piece[i] < 128
      {
        assert piece[i] in piece;
      }
    }
  }

  predicate AllPlain(labels: seq<Text>) { forall i :: 0 <= i < |labels| ==> Plain(labels[i]) }

  lemma NameIs(labels: seq<Text>)
    ensures LegalName(labels) <==> AllPlain(labels)
  {
    hide LegalLabel, Plain;
    forall i | 0 <= i < |labels|
      ensures LegalLabel(labels[i]) <==> Plain(labels[i])
    {
      PlainIs(labels[i]);
    }
  }

  // ----- which payloads are queries

  /** A walk that ends before the payload does has read an encoded name. */
  lemma {:induction false} WalkEncodes(payload: Bytes, cursor: nat)
    requires cursor <= |payload| && Labels(payload, cursor).Success? && Labels(payload, cursor).value.cursor < |payload|
    ensures var walk := Labels(payload, cursor).value;
            LegalName(walk.labels) && cursor < walk.cursor && payload[cursor..walk.cursor] == EncodeName(walk.labels)
    decreases |payload| - cursor
  {
    var size, end := payload[cursor], Labels(payload, cursor).value.cursor;
    if size == 0 {
      assert payload[cursor..cursor + 1] == [0];
    } else {
      var next := cursor + 1 + size;
      var piece, rest := payload[cursor + 1..next], Labels(payload, next).value;
      WalkEncodes(payload, next);
      assert Labels(payload, cursor).value.labels[1..] == rest.labels;
      assert payload[cursor..end] == [payload[cursor]] + piece + payload[next..end];
      LegalNext(piece, rest.labels);
    }
  }

  lemma LegalNext(piece: Text, rest: seq<Text>)
    requires LegalLabel(piece) && LegalName(rest)
    ensures LegalName([piece] + rest)
  {
    hide LegalLabel;
  }

  /** 12 bytes of which the fifth and sixth count one question, the labels, a zero, and at least
      type and class. */
  ghost predicate IsQuery(payload: Bytes, labels: seq<Text>) {
    && 17 <= |payload| <= 512 && payload[4] * 256 + payload[5] == 1
    && AllPlain(labels)
    && 12 + |Prefixed(labels)| + 5 <= |payload|
    && payload[12..12 + |Prefixed(labels)|] == Prefixed(labels) && payload[12 + |Prefixed(labels)|] == 0
  }

  /** Exactly these payloads are queries, and the name is the labels between dots in capitals. */
  lemma QueryExact(payload: Bytes, q: Query)
    ensures NameQuery(payload) == Success(q) <==>
              exists labels :: IsQuery(payload, labels) && Raised(Dotted(labels), q.name)
                               && q.transactionId == payload[..2]
  {
    hide Labels, Upper, Join, Raised, AllPlain, Dotted;
    if NameQuery(payload) == Success(q) {
      var walk := Labels(payload, 12).value;
      WalkEncodes(payload, 12);
      EncodeIs(walk.labels);
      NameIs(walk.labels);
      JoinIs(walk.labels);
      RaisedIs(Dotted(walk.labels), q.name);
      EncodedHere(payload, walk.labels, walk.cursor);
      assert IsQuery(payload, walk.labels);
    }
    if labels :| IsQuery(payload, labels) && Raised(Dotted(labels), q.name) && q.transactionId == payload[..2] {
      var n := |Prefixed(labels)|;
      EncodeIs(labels);
      NameIs(labels);
      JoinIs(labels);
      RaisedIs(Dotted(labels), q.name);
      assert payload == payload[..12] + EncodeName(labels) + payload[12 + n + 1..];
      LabelsOfName(payload[..12], labels, payload[12 + n + 1..]);
    }
  }

  lemma EncodedHere(payload: Bytes, labels: seq<Text>, end: nat)
    requires 12 <= end <= |payload| && payload[12..end] == Prefixed(labels) + [0]
    ensures end == 12 + |Prefixed(labels)| + 1 && payload[end - 1] == 0
    ensures payload[12..end - 1] == Prefixed(labels)
  {
    var p := payload[12..end];
    assert p[..|p| - 1] == Prefixed(labels) && p[|p| - 1] == 0;
    assert payload[12..end - 1] == p[..|p| - 1];
  }

  /** Why a payload of the right size with one question is not a query: after labels that are in
      order comes one that is too long or runs over the end, or holds a byte beyond ASCII. */
  lemma {:induction false} LabelRefused(payload: Bytes, cursor: nat, labels: seq<Text>)
    requires AllPlain(labels) && cursor + |Prefixed(labels)| < |payload|
    requires payload[cursor..cursor + |Prefixed(labels)|] == Prefixed(labels)
    ensures var at := cursor + |Prefixed(labels)|;
            && (payload[at] >= 64 || (payload[at] > 0 && at + 1 + payload[at] > |payload|) ==>
                  Labels(payload, cursor) == Failure(BadLabel))
            && (0 < payload[at] < 64 && at + 1 + payload[at] <= |payload|
                && (exists i :: at < i < at + 1 + payload[at] && payload[i] >= 128) ==>
                  Labels(payload, cursor) == Failure(NotAscii))
    decreases |labels|
  {
    if labels == [] {
      var at := cursor;
      if 0 < payload[at] < 64 && at + 1 + payload[at] <= |payload|
         && exists i :: at < i < at + 1 + payload[at] && payload[i] >= 128 {
        var i :| at < i < at + 1 + payload[at] && payload[i] >= 128;
        var piece := payload[at + 1..at + 1 + payload[at]];
        assert piece[i - at - 1] in piece;
      }
    } else {
      var all, piece := Prefixed(labels), labels[0];
      PrefixedFirst(labels);
      PlainIs(piece);
      var next := cursor + 1 + |piece|;
      assert payload[cursor] == payload[cursor..cursor + |all|][0];
      assert payload[cursor + 1..next] == payload[cursor..cursor + |all|][1..1 + |piece|];
      assert payload[next..cursor + |all|] == payload[cursor..cursor + |all|][1 + |piece|..];
      LabelRefused(payload, next, labels[1..]);
    }
  }

  // ----- LLMNR responses

  predicate UpperHex(t: Text) {
    forall i :: 0 <= i < |t| ==> 'A' as int <= t[i] <= 'F' as int || '0' as int <= t[i] <= '9' as int
  }

  lemma HexIs(t: Text)
    ensures AllHex(t) <==> UpperHex(t)
  {
    if AllHex(t) {
      assert forall i :: 0 <= i < |t| ==> t[i] in t;
    }
  }

  /** CSA-RSP-, eight digits, a dash and six; or CSAR- and ten. */
  predicate Marker(t: Text) {
    || (|t| == 23 && t[..8] == Lit("CSA-RSP-") && UpperHex(t[8..16]) && t[16] == '-' as int && UpperHex(t[17..23]))
    || (|t| == 15 && t[..5] == Lit("CSAR-") && UpperHex(t[5..15]))
  }

  lemma MarkerIs(t: Text)
    ensures MarkerPattern(t) <==> Marker(t)
  {
    hide Lit, AllHex, UpperHex;
    if |t| == 23 {
      HexIs(t[8..16]);
      HexIs(t[17..]);
      assert t[17..] == t[17..23];
    } else if |t| == 15 {
      HexIs(t[5..]);
      assert t[5..] == t[5..15];
    }
  }

  /** An IPv4 address that is neither 0.0.0.0 nor in 224.0.0.0/4. */
  predicate Unicast(a: Address) {
    && a.V4? && |a.packed| == 4
    && !(a.packed[0] == 0 && a.packed[1] == 0 && a.packed[2] == 0 && a.packed[3] == 0)
    && (a.packed[0] < 224 || 240 <= a.packed[0])
  }

  lemma UnicastIs(a: Address)
    ensures Scoped(a) <==> Unicast(a)
  {
    if a.V4? && |a.packed| == 4 {
      assert a.packed == [0, 0, 0, 0] <==>
             a.packed[0] == 0 && a.packed[1] == 0 && a.packed[2] == 0 && a.packed[3] == 0;
    }
  }

  lemma UnicastNeedsV4(a: Address)
    ensures Scoped(a) ==> a.V4?
  {
  }

  /** A query for the marker that was asked for is answered, from a unicast address only, with these
      bytes: a response with one question and one answer, the question as it came, and an A record
      for it that lives thirty seconds. Any other query is ignored. */
  lemma LlmnrExact(query: Bytes, marker: Text, address: Address, q: Query)
    requires NameQuery(query) == Success(q)
    ensures |query| >= 12
    ensures LlmnrResponse(query, marker, address)
            == if q.name != marker || !Marker(marker) then Success(None)
              else if !Unicast(address) then Failure(BadAddress)
              else Success(Some(
                [query[0], query[1], 0x80, 0x00, 0x00, 0x01, 0x00, 0x01, 0x00, 0x00, 0x00, 0x00] + query[12..]
                + [0xC0, 0x0C, 0x00, 0x01, 0x00, 0x01, 0x00, 0x00, 0x00, 0x1E, 0x00, 0x04] + address.packed))
  {
    hide MarkerPattern, Marker, Labels, Upper, Join, Scoped, Unicast;
    MarkerIs(q.name);
    UnicastIs(address);
    assert query[..2] == [query[0], query[1]];
    assert query[..2] + LLMNR_FLAGS
        == [query[0], query[1], 0x80, 0x00, 0x00, 0x01, 0x00, 0x01, 0x00, 0x00, 0x00, 0x00];
  }

  // ----- NetBIOS

  /** Two letters from A to P are one byte. */
  predicate Paired(encoded: Bytes, name: Text) {
    |name| == 15 && |encoded| == 32
    && forall i :: 0 <= i < 15 ==> name[i] == 16 * (encoded[2 * i] - 'A' as int) + (encoded[2 * i + 1] - 'A' as int)
  }

  lemma {:induction false} PairAt(encoded: Bytes, i: nat)
    requires |encoded| % 2 == 0 && 2 * i + 1 < |encoded| && forall x :: x in encoded ==> 65 <= x <= 80
    ensures i < |DecodePairs(encoded)|
    ensures encoded[2 * i] >= 65 && encoded[2 * i + 1] >= 65
    ensures DecodePairs(encoded)[i] == (encoded[2 * i] - 65) * 16 + (encoded[2 * i + 1] - 65)
  {
    assert encoded[2 * i] in encoded && encoded[2 * i + 1] in encoded;
    DecodedLength(encoded);
    if i > 0 {
      assert forall x :: x in encoded[2..] ==> x in encoded;
      assert encoded[0] in encoded && encoded[1] in encoded;
      PairAt(encoded[2..], i - 1);
    }
  }

  lemma PairedIs(encoded: Bytes, name: Text)
    requires |encoded| == 32 && forall x :: x in encoded ==> 65 <= x <= 80
    ensures Paired(encoded, name) <==> name == DecodedName(encoded)
  {
    hide DecodePairs;
    DecodedLength(encoded);
    forall i | 0 <= i < 15
      ensures DecodedName(encoded)[i] == 16 * (encoded[2 * i] as int - 65) + (encoded[2 * i + 1] as int - 65)
    {
      PairAt(encoded, i);
    }
  }

  /** White space as `str.rstrip` sees it in ASCII. */
  predicate Blank(c: nat) {
    c == ' ' as int || c == '\t' as int || c == '\n' as int || c == 0x0B || c == 0x0C || c == '\r' as int
    || c == 0x1C || c == 0x1D || c == 0x1E || c == 0x1F
  }

  /** r is t without the white space at its end. */
  predicate Trimmed(t: Text, r: Text) {
    && r <= t && (forall i :: |r| <= i < |t| ==> Blank(t[i])) && (r != [] ==> !Blank(r[|r| - 1]))
  }

  lemma {:induction false} TrimmedIs(t: Text, r: Text)
    ensures Trimmed(t, r) <==> r == RightStrip(t)
  {
    if t != [] && Space(t[|t| - 1]) {
      var init := t[..|t| - 1];
      TrimmedIs(init, r);
      if Trimmed(t, r) {
        assert |r| == |t| ==> r == t;
      }
    } else {
      assert Trimmed(t, r) && |r| < |t| ==> Blank(t[|t| - 1]);
    }
  }

  /** 50 to 512 bytes; after twelve of header the length 32, as many letters from A to P, a zero, and
      type and class of a name query. */
  predicate IsNbtns(payload: Bytes) {
    && 50 <= |payload| <= 512 && payload[12] == 32
    && (forall i :: 13 <= i < 45 ==> 'A' as int <= payload[i] <= 'P' as int)
    && payload[45] == 0 && payload[46] == 0x00 && payload[47] == 0x20 && payload[48] == 0x00 && payload[49] == 0x01
  }

  /** Exactly these are NetBIOS queries, if the first fifteen bytes of the name are ASCII; the name is
      those bytes without white space at their end, in capitals. */
  lemma NbtnsExact(payload: Bytes, q: Query)
    ensures NbtnsQuery(payload) == Success(q) <==>
              && IsNbtns(payload) && q.transactionId == payload[..2]
              && exists name, trimmed ::
                   && Paired(payload[13..45], name) && (forall i :: 0 <= i < |name| ==> name[i] < 128)
                   && Trimmed(name, trimmed) && Raised(trimmed, q.name)
  {
    hide Upper, Raised, DecodedName, Paired, Trimmed, RightStrip;
    if 50 <= |payload| <= 512 {
      var encoded := payload[13..45];
      LettersAre(payload, encoded);
      assert payload[46..50] == [payload[46], payload[47], payload[48], payload[49]];
      if forall x :: x in encoded ==> 65 <= x <= 80 {
        var name := DecodedName(encoded);
        var trimmed := RightStrip(name);
        forall n
          ensures Paired(encoded, n) <==> n == name
        {
          PairedIs(encoded, n);
        }
        forall t
          ensures Trimmed(name, t) <==> t == trimmed
        {
          TrimmedIs(name, t);
        }
        RaisedIs(trimmed, q.name);
        AsciiIs(name);
        assert Paired(encoded, name) && Trimmed(name, trimmed);
        assert NbtnsQuery(payload) == Success(q) <==>
               IsNbtns(payload) && IsAscii(name) && q == Query(Upper(trimmed), payload[..2]);
      }
    }
  }

  lemma LettersAre(payload: Bytes, encoded: Bytes)
    requires |payload| >= 50 && encoded == payload[13..45]
    ensures (forall i :: 13 <= i < 45 ==> 'A' as int <= payload[i] <= 'P' as int) <==>
            forall x :: x in encoded ==> 65 <= x <= 80
  {
    if forall x :: x in encoded ==> 65 <= x <= 80 {
      forall i | 13 <= i < 45
        ensures 65 <= payload[i] <= 80
      {
        assert encoded[i - 13] in encoded;
      }
    }
  }

  lemma AsciiIs(t: Text)
    ensures IsAscii(t) <==> forall i :: 0 <= i < |t| ==> t[i] < 128
  {
    if IsAscii(t) {
      assert forall i :: 0 <= i < |t| ==> t[i] in t;
    }
  }

  /** A query for the marker is answered, from a unicast address only, with the name as it came and a
      record that lives thirty seconds. Any other query is ignored. */
  lemma NbtnsAnswerExact(query: Bytes, marker: Text, address: Address, q: Query)
    requires NbtnsQuery(query) == Success(q)
    ensures |query| >= 50
    ensures NbtnsResponse(query, marker, address)
            == if q.name != marker || !Marker(marker) then Success(None)
              else if !Unicast(address) then Failure(BadAddress)
              else Success(Some(
                [query[0], query[1], 0x85, 0x00, 0x00, 0x00, 0x00, 0x01, 0x00, 0x00, 0x00, 0x00] + query[12..46]
                + [0x00, 0x20, 0x00, 0x01, 0x00, 0x00, 0x00, 0x1E, 0x00, 0x06, 0x00, 0x00] + address.packed))
  {
    hide MarkerPattern, Marker, Upper, RightStrip, DecodedName, Scoped, Unicast;
    MarkerIs(q.name);
    UnicastIs(address);
    assert query[..2] == [query[0], query[1]];
    assert query[..2] + NB_FLAGS
        == [query[0], query[1], 0x85, 0x00, 0x00, 0x00, 0x00, 0x01, 0x00, 0x00, 0x00, 0x00];
    var tail := [0x00, 0x20, 0x00, 0x01, 0x00, 0x00, 0x00, 0x1E, 0x00, 0x06, 0x00, 0x00];
    assert NB_QUESTION + [0, 0, 0, 0x1E] + [0, 6, 0, 0] == tail;
    if address.V4? {
      var record := query[12..46] + NB_QUESTION + [0, 0, 0, 0x1E] + [0, 6, 0, 0] + address.packed;
      assert record == query[12..46] + tail + address.packed;
      assert query[..2] + NB_FLAGS + record == query[..2] + NB_FLAGS + query[12..46] + tail + address.packed;
    } else {
      assert !Scoped(address) by {
        UnicastNeedsV4(address);
      }
    }
  }
}
