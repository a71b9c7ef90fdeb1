/**
 Which payloads are which NTLM messages, what is read from an authenticate message, and the
 challenge byte by byte.
 */
module NtlmRules {
  import opened Wrappers
  import opened Unicode
  import opened NtlmWire

  /** NTLMSSP and a zero at i. */
  predicate MarkedAt(payload: Bytes, i: nat) {
    && i + 7 < |payload|
    && payload[i] == 'N' as int && payload[i + 1] == 'T' as int && payload[i + 2] == 'L' as int
    && payload[i + 3] == 'M' as int && payload[i + 4] == 'S' as int && payload[i + 5] == 'S' as int
    && payload[i + 6] == 'P' as int && payload[i + 7] == 0
  }

  /** The first mark. */
  ghost predicate StartsAt(payload: Bytes, i: nat) {
    MarkedAt(payload, i) && forall j :: 0 <= j < i ==> !MarkedAt(payload, j)
  }

  lemma MarkIs(payload: Bytes, i: nat)
    ensures SignatureAt(payload, i) <==> MarkedAt(payload, i)
  {
    if i + 8 <= |payload| {
      var s := payload[i..i + 8];
      assert s == [payload[i], payload[i + 1], payload[i + 2], payload[i + 3], payload[i + 4], payload[i + 5],
                   payload[i + 6], payload[i + 7]];
    }
  }

  lemma FindIs(payload: Bytes, i: nat)
    ensures Find(payload) == Some(i) <==> StartsAt(payload, i)
    ensures Find(payload).None? <==> forall j: nat :: !MarkedAt(payload, j)
  {
    hide MarkedAt, SignatureAt, FindFrom;
    forall j: nat
      ensures SignatureAt(payload, j) <==> MarkedAt(payload, j)
    {
      MarkIs(payload, j);
    }
    FindFromIs(payload, 0);
    var r := Find(payload);
    assert StartsAt(payload, i) && r.Some? ==> r.value == i;
  }

  function Two(b: Bytes, i: nat): int
    requires i + 1 < |b|
  {
    b[i] + 0x100 * b[i + 1]
  }

  function Four(b: Bytes, i: nat): int
    requires i + 3 < |b|
  {
    b[i] + 0x100 * b[i + 1] + 0x1_0000 * b[i + 2] + 0x100_0000 * b[i + 3]
  }

  lemma TwoIs(b: Bytes, i: nat)
    requires i + 2 <= |b|
    ensures FromLittle(b[i..i + 2]) == Two(b, i)
  {
    var s := b[i..i + 2];
    assert s[1..] == [b[i + 1]];
    assert FromLittle(s[1..]) == b[i + 1] + 256 * FromLittle([]);
  }

  lemma FourIs(b: Bytes, i: nat)
    requires i + 4 <= |b|
    ensures FromLittle(b[i..i + 4]) == Four(b, i)
  {
    var s := b[i..i + 4];
    assert s[1..][1..] == b[i + 2..i + 4];
    TwoIs(b, i + 2);
  }

  // ----- the type of a message

  /** 12 bytes to 64 KiB; in them a mark, and after the first one a number from one to three. */
  ghost predicate IsMessage(payload: Bytes, at: nat, kind: MessageType) {
    && 12 <= |payload| <= 0x1_0000 && StartsAt(payload, at) && at + 11 < |payload|
    && Four(payload, at + 8) == match kind case Negotiate => 1 case Challenge => 2 case Authenticate => 3
  }

  lemma TypeExact(payload: Bytes, kind: MessageType)
    ensures ParseType(payload) == Success(kind) <==> exists at: nat :: IsMessage(payload, at, kind)
  {
    hide Find, FromLittle, StartsAt;
    forall i: nat
      ensures Find(payload) == Some(i) <==> StartsAt(payload, i)
    {
      FindIs(payload, i);
    }
    if Find(payload).Some? && Find(payload).value + 12 <= |payload| {
      FourIs(payload, Find(payload).value + 8);
      assert ParseType(payload) == Success(kind) ==> IsMessage(payload, Find(payload).value, kind);
    }
  }

  // ----- the identity of an authenticate message

  /** The eight bytes at offset describe a value inside the payload, counted from the message's
      start: its length, a maximum that is no less, and where it is. */
  ghost predicate Described(payload: Bytes, offset: nat, at: nat, value: Bytes) {
    && offset + 7 < |payload| && |value| == Two(payload, offset) && Two(payload, offset) <= Two(payload, offset + 2)
    && Four(payload, offset + 4) >= 0 && at + Four(payload, offset + 4) + |value| <= |payload|
    && forall i :: 0 <= i < |value| ==> value[i] == payload[at + Four(payload, offset + 4) + i]
  }

  lemma BufferExact(payload: Bytes, offset: nat, at: nat, value: Bytes)
    ensures SecurityBuffer(payload, offset, at) == Success(value) <==> Described(payload, offset, at, value)
  {
    hide FromLittle, Two, Four;
    if offset + 8 <= |payload| {
      TwoIs(payload, offset);
      TwoIs(payload, offset + 2);
      FourIs(payload, offset + 4);
      var start := at + FromLittle(payload[offset + 4..offset + 8]);
      if Described(payload, offset, at, value) {
        assert value == payload[start..start + |value|];
      }
    }
  }

  /** An identity is read exactly from an authenticate message with 64 bytes after its first mark;
      domain and user are what the descriptors 28 and 36 bytes on describe, and the lowest flag 60
      bytes on tells UTF-16. */
  lemma IdentityExact(payload: Bytes, id: Identity)
    ensures ReadIdentity(payload) == Success(id) <==>
              exists at: nat ::
                && IsMessage(payload, at, Authenticate) && at + 63 < |payload|
                && Described(payload, at + 28, at, id.domain) && Described(payload, at + 36, at, id.user)
                && (id.wide <==> payload[at + 60] % 2 == 1)
  {
    hide ParseType, Find, SecurityBuffer, Described, FromLittle;
    TypeExact(payload, Authenticate);
    forall i: nat
      ensures Find(payload) == Some(i) <==> StartsAt(payload, i)
    {
      FindIs(payload, i);
    }
    MessageStarts(payload);
    forall offset: nat, at: nat, value
      ensures SecurityBuffer(payload, offset, at) == Success(value) <==> Described(payload, offset, at, value)
    {
      BufferExact(payload, offset, at, value);
    }
    if Find(payload).Some? && Find(payload).value + 64 <= |payload| {
      var at := Find(payload).value;
      FourIs(payload, at + 60);
      LowestBit(payload, at + 60);
      if ReadIdentity(payload) == Success(id) {
        assert IsMessage(payload, at, Authenticate) && Described(payload, at + 28, at, id.domain);
        assert Described(payload, at + 36, at, id.user);
      }
    }
  }

  lemma MessageStarts(payload: Bytes)
    ensures forall at: nat, kind :: IsMessage(payload, at, kind) ==> StartsAt(payload, at)
  {
  }

  lemma LowestBit(b: Bytes, i: nat)
    requires i + 4 <= |b|
    ensures Four(b, i) % 2 == b[i] % 2
  {
    var half := 0x80 * b[i + 1] + 0x8000 * b[i + 2] + 0x80_0000 * b[i + 3];
    assert Four(b, i) == b[i] + 2 * half;
  }

  // ----- the challenge

  lemma LittleTwo(n: nat)
    requires n < 0x1_0000
    ensures Little(n, 2) == [n % 0x100, n / 0x100]
  {
    assert Little(n / 0x100, 1) == [n / 0x100 % 0x100] + Little(n / 0x100 / 0x100, 0);
  }

  lemma LittleFour(n: nat)
    requires n < 0x1_0000_0000
    ensures Little(n, 4) == [n % 0x100, n / 0x100 % 0x100, n / 0x1_0000 % 0x100, n / 0x100_0000]
  {
    var a := n / 0x100;
    assert Little(n, 4) == [n % 0x100] + Little(a, 3);
    assert Little(a, 3) == [a % 0x100] + Little(a / 0x100, 2);
    LittleTwo(a / 0x100);
  }

  /** The challenge is laid out as a type 2 message: the mark, the type, an empty target name, the
      flags 0xA2888235, the nonce, eight zeros, the descriptor of the target information, a version,
      and as target information the time of day and the end of the list. */
  lemma ChallengeExact(nonce: Bytes, fileTime: nat)
    ensures BuildChallenge(nonce, fileTime)
            == [0x4E, 0x54, 0x4C, 0x4D, 0x53, 0x53, 0x50, 0x00]
               + [0x02, 0x00, 0x00, 0x00]
               + [0x00, 0x00, 0x00, 0x00, 0x38, 0x00, 0x00, 0x00]
               + [0x35, 0x82, 0x88, 0xA2]
               + nonce
               + [0x00, 0x00, 0x00, 0x00, 0x00, 0x00, 0x00, 0x00]
               + [0x10, 0x00, 0x10, 0x00, 0x38, 0x00, 0x00, 0x00]
               + [0x0A, 0x00, 0x63, 0x45, 0x00, 0x00, 0x00, 0x0F]
               + [0x07, 0x00, 0x08, 0x00] + Little(fileTime, 8) + [0x00, 0x00, 0x00, 0x00]
  {
    hide Little;
    LittleFour(2);
    LittleFour(56);
    LittleFour(0xA2888235);
    LittleTwo(0);
    LittleTwo(7);
    LittleTwo(8);
    LittleTwo(16);
    InfoLength(fileTime);
    HeadIs();
    assert Descriptor(16) == [0x10, 0x00, 0x10, 0x00, 0x38, 0x00, 0x00, 0x00];
    assert TargetInfo(fileTime) == [0x07, 0x00, 0x08, 0x00] + Little(fileTime, 8) + [0x00, 0x00, 0x00, 0x00];
  }

  lemma HeadIs()
    ensures Head() == [0x4E, 0x54, 0x4C, 0x4D, 0x53, 0x53, 0x50, 0x00] + [0x02, 0x00, 0x00, 0x00]
                      + [0x00, 0x00, 0x00, 0x00, 0x38, 0x00, 0x00, 0x00] + [0x35, 0x82, 0x88, 0xA2]
  {
    hide Little;
    LittleFour(2);
    LittleFour(56);
    LittleFour(0xA2888235);
    LittleTwo(0);
  }

  /** The time in eight bytes, the lowest first. */
  lemma TimeBytes(n: nat)
    requires n < 0x1_0000_0000_0000_0000
    ensures |Little(n, 8)| == 8 && forall i :: 0 <= i < 8 ==> Little(n, 8)[i] < 0x100
    ensures Four(Little(n, 8), 0) + 0x1_0000_0000 * Four(Little(n, 8), 4) == n
  {
    hide Little;
    Powers();
    LittleRoundTrip(n, 8);
    var t := Little(n, 8);
    assert forall i :: 0 <= i < 8 ==> t[i] in t;
    LowerFour(t);
    FourIs(t, 4);
    assert t[4..8] == t[4..];
  }

  lemma Powers()
    ensures Power(8) == 0x1_0000_0000_0000_0000
  {
    assert Power(2) == 0x1_0000 by { assert Power(1) == 0x100; }
    assert Power(4) == 0x1_0000_0000 by { assert Power(3) == 0x100_0000; }
    assert Power(6) == 0x1_0000_0000_0000 by { assert Power(5) == 0x100_0000_0000; }
    assert Power(7) == 0x100_0000_0000_0000;
  }

  lemma LowerFour(t: Bytes)
    requires |t| == 8
    ensures FromLittle(t) == Four(t, 0) + 0x1_0000_0000 * FromLittle(t[4..])
  {
    assert t[1..][1..] == t[2..] && t[2..][1..] == t[3..] && t[3..][1..] == t[4..];
    assert FromLittle(t) == t[0] + 0x100 * FromLittle(t[1..]);
    assert FromLittle(t[1..]) == t[1] + 0x100 * FromLittle(t[2..]);
    assert FromLittle(t[2..]) == t[2] + 0x100 * FromLittle(t[3..]);
    assert FromLittle(t[3..]) == t[3] + 0x100 * FromLittle(t[4..]);
  }
}
