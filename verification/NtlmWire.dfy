/**
 NTLM messages as bytes (sections 2.2.1.2, 2.2.1.3 and 2.2.2.1 of MS-NLMP): the message type,
 the security buffers, and the challenge the harness builds. Decoding the text of an identity
 is not part of this model.
 */
module NtlmWire {
  import opened Wrappers
  import opened Unicode

  const SIGNATURE: Bytes := [78, 84, 76, 77, 83, 83, 80, 0]

  const MAXIMUM_PAYLOAD: nat := 65536

  datatype MessageType = Negotiate | Challenge | Authenticate

  datatype NtlmError = BadSize | NoSignature | BadType | BufferMissing | BufferOutside | WrongMessage | Incomplete

  // ----- little-endian numbers

  function Little(n: nat, width: nat): (b: Bytes)
    ensures |b| == width
  {
    if width == 0 then [] else [n % 256] + Little(n / 256, width - 1)
  }

  function FromLittle(b: Bytes): nat {
    if b == [] then 0 else b[0] + 256 * FromLittle(b[1..])
  }

  function Power(width: nat): (p: nat)
    ensures p >= 1
  {
    if width == 0 then 1 else 256 * Power(width - 1)
  }

  lemma {:induction false} LittleRoundTrip(n: nat, width: nat)
    requires n < Power(width)
    ensures FromLittle(Little(n, width)) == n
    ensures forall x :: x in Little(n, width) ==> x < 256
  {
    if width > 0 {
      LittleRoundTrip(n / 256, width - 1);
      assert Little(n, width)[1..] == Little(n / 256, width - 1);
    }
  }

  // ----- the first signature

  predicate SignatureAt(payload: Bytes, i: nat) { i + 8 <= |payload| && payload[i..i + 8] == SIGNATURE }

  function FindFrom(payload: Bytes, i: nat): (r: Option<nat>)
    decreases |payload| - i
  {
    if i + 8 > |payload| then None else if SignatureAt(payload, i) then Some(i) else FindFrom(payload, i + 1)
  }

  /** `payload.find(NTLM_SIGNATURE)`. */
  function Find(payload: Bytes): Option<nat> { FindFrom(payload, 0) }

  lemma {:induction false} FindFromLeast(payload: Bytes, i: nat, k: nat)
    requires i <= k && forall j :: i <= j < k ==> !SignatureAt(payload, j)
    ensures SignatureAt(payload, k) ==> FindFrom(payload, i) == Some(k)
    ensures k + 8 > |payload| ==> FindFrom(payload, i) == None
    decreases k - i
  {
    if i < k && i + 8 <= |payload| {
      FindFromLeast(payload, i + 1, k);
    }
  }

  lemma {:induction false} FindFromIs(payload: Bytes, i: nat)
    ensures var r := FindFrom(payload, i);
            && (r.Some? ==>
                  && i <= r.value && SignatureAt(payload, r.value)
                  && forall j :: i <= j < r.value ==> !SignatureAt(payload, j))
            && (r.None? ==> forall j :: i <= j ==> !SignatureAt(payload, j))
    decreases |payload| - i
  {
    if i + 8 <= |payload| && !SignatureAt(payload, i) {
      FindFromIs(payload, i + 1);
    }
  }

  // ----- message type and buffers

  function TypeOf(n: nat): Option<MessageType> {
    if n == 1 then Some(Negotiate) else if n == 2 then Some(Challenge) else if n == 3 then Some(Authenticate) else None
  }

  function ParseType(payload: Bytes): Result<MessageType, NtlmError> {
    if !(12 <= |payload| <= MAXIMUM_PAYLOAD) then Failure(BadSize)
    else
      match Find(payload)
      case None => Failure(NoSignature)
      case Some(at) =>
        if at + 12 > |payload| then Failure(NoSignature)
        else
          match TypeOf(FromLittle(payload[at + 8..at + 12]))
          case None => Failure(BadType)
          case Some(t) => Success(t)
  }

  function SecurityBuffer(payload: Bytes, offset: nat, base: nat): Result<Bytes, NtlmError> {
    if offset + 8 > |payload| then Failure(BufferMissing)
    else
      var length, maximum := FromLittle(payload[offset..offset + 2]), FromLittle(payload[offset + 2..offset + 4]);
      var at := base + FromLittle(payload[offset + 4..offset + 8]);
      if length > maximum || at + length > |payload| then Failure(BufferOutside)
      else Success(payload[at..at + length])
  }

  /** A read succeeds exactly when the descriptor lies in the payload, is consistent, and
      points to bytes wholly inside it, counted from the base; those are what it returns. */
  lemma BufferInside(payload: Bytes, offset: nat, base: nat)
    ensures SecurityBuffer(payload, offset, base).Success? <==>
              && offset + 8 <= |payload|
              && FromLittle(payload[offset..offset + 2]) <= FromLittle(payload[offset + 2..offset + 4])
              && var start := FromLittle(payload[offset + 4..offset + 8]);
                 base + start + FromLittle(payload[offset..offset + 2]) <= |payload|
    ensures SecurityBuffer(payload, offset, base).Success? ==>
              var value := SecurityBuffer(payload, offset, base).value;
              && |value| == FromLittle(payload[offset..offset + 2])
              && var start := FromLittle(payload[offset + 4..offset + 8]);
                 forall i :: 0 <= i < |value| ==> value[i] == payload[base + start + i]
  {
  }

  /** The raw fields of an authenticate message and whether they are UTF-16. */
  datatype Identity = Identity(domain: Bytes, user: Bytes, wide: bool)

  function ReadIdentity(payload: Bytes): Result<Identity, NtlmError> {
    var kind :- ParseType(payload);
    if kind != Authenticate then Failure(WrongMessage)
    else
      match Find(payload)
      case None => Failure(Incomplete)
      case Some(at) =>
        if at + 64 > |payload| then Failure(Incomplete)
        else
          var domain :- SecurityBuffer(payload, at + 28, at);
          var user :- SecurityBuffer(payload, at + 36, at);
          Success(Identity(domain, user, FromLittle(payload[at + 60..at + 64]) % 2 == 1))
  }

  // ----- what stands before the message does not matter

  lemma Shifted(junk: Bytes, message: Bytes, i: nat, j: nat)
    requires i <= j <= |message|
    ensures (junk + message)[|junk| + i..|junk| + j] == message[i..j]
  {
  }

  /** Junk that brings no signature of its own, alone or together with the message's start. */
  ghost predicate Harmless(junk: Bytes, message: Bytes) {
    forall j :: 0 <= j < |junk| ==> !SignatureAt(junk + message, j)
  }

  lemma FindShifted(junk: Bytes, message: Bytes)
    requires Harmless(junk, message) && Find(message) == Some(0)
    ensures Find(junk + message) == Some(|junk|)
  {
    FindFromIs(message, 0);
    Shifted(junk, message, 0, 8);
    assert SignatureAt(junk + message, |junk|);
    FindFromLeast(junk + message, 0, |junk|);
  }

  lemma TypeShifted(junk: Bytes, message: Bytes)
    requires Harmless(junk, message) && Find(message) == Some(0)
    requires 12 <= |message| && |junk + message| <= MAXIMUM_PAYLOAD
    ensures ParseType(junk + message) == ParseType(message)
  {
    FindShifted(junk, message);
    Shifted(junk, message, 8, 12);
  }

  lemma BufferShifted(junk: Bytes, message: Bytes, offset: nat)
    ensures SecurityBuffer(junk + message, |junk| + offset, |junk|) == SecurityBuffer(message, offset, 0)
  {
    if offset + 8 <= |message| {
      Shifted(junk, message, offset, offset + 2);
      Shifted(junk, message, offset + 2, offset + 4);
      Shifted(junk, message, offset + 4, offset + 8);
      var length, at := FromLittle(message[offset..offset + 2]), FromLittle(message[offset + 4..offset + 8]);
      if at + length <= |message| {
        Shifted(junk, message, at, at + length);
      }
    }
  }

  /** Wrapped in a transport, an authenticate message yields the same identity fields: type,
      descriptors and values are all read relative to the first signature. */
  lemma IdentityShifted(junk: Bytes, message: Bytes)
    requires Harmless(junk, message) && Find(message) == Some(0)
    requires 12 <= |message| && |junk + message| <= MAXIMUM_PAYLOAD
    ensures ReadIdentity(junk + message) == ReadIdentity(message)
  {
    hide SecurityBuffer, FromLittle, FindFrom;
    TypeShifted(junk, message);
    FindShifted(junk, message);
    BufferShifted(junk, message, 28);
    BufferShifted(junk, message, 36);
    if 64 <= |message| {
      Shifted(junk, message, 60, 64);
    }
  }

  /** The bytes lie in the payload at i, which is not before the message. */
  predicate Within(payload: Bytes, at: nat, i: nat, b: Bytes) {
    at <= i && i + |b| <= |payload| && payload[i..i + |b|] == b
  }

  /** Each field that is returned lies wholly inside the message it was read from. */
  lemma IdentityInside(payload: Bytes)
    requires ReadIdentity(payload).Success?
    ensures ParseType(payload) == Success(Authenticate) && Find(payload).Some?
    ensures var at, id := Find(payload).value, ReadIdentity(payload).value;
            && at + 64 <= |payload|
            && (exists i :: Within(payload, at, i, id.domain)) && (exists i :: Within(payload, at, i, id.user))
  {
    var at, id := Find(payload).value, ReadIdentity(payload).value;
    var d := at + FromLittle(payload[at + 32..at + 36]);
    var u := at + FromLittle(payload[at + 40..at + 44]);
    assert Within(payload, at, d, id.domain);
    assert Within(payload, at, u, id.user);
  }

  // ----- the challenge

  const FLAGS: nat := 0xA2888235

  const VERSION: Bytes := [0x0A, 0, 0x63, 0x45, 0, 0, 0, 0x0F]

  const PAYLOAD_OFFSET: nat := 56

  /** One AV pair with the file time, and the end of the list. */
  function TargetInfo(fileTime: nat): Bytes {
    Little(7, 2) + Little(8, 2) + Little(fileTime, 8) + Little(0, 2) + Little(0, 2)
  }

  /** The parts before the nonce, and between it and the target information. */
  function Head(): Bytes {
    SIGNATURE + Little(2, 4) + Little(0, 2) + Little(0, 2) + Little(PAYLOAD_OFFSET, 4) + Little(FLAGS, 4)
  }

  function Descriptor(length: nat): Bytes { Little(length, 2) + Little(length, 2) + Little(PAYLOAD_OFFSET, 4) }

  function BuildChallenge(nonce: Bytes, fileTime: nat): Bytes {
    Head() + nonce + [0, 0, 0, 0, 0, 0, 0, 0] + Descriptor(|TargetInfo(fileTime)|) + VERSION + TargetInfo(fileTime)
  }

  lemma ChallengeParts(head: Bytes, nonce: Bytes, zeros: Bytes, descriptor: Bytes, version: Bytes, info: Bytes)
    requires |head| == 24 && |nonce| == 8 && |zeros| == 8 && |descriptor| == 8 && |version| == 8
    ensures var c := head + nonce + zeros + descriptor + version + info;
            && |c| == 56 + |info| && c[..24] == head && c[24..32] == nonce && c[40..48] == descriptor && c[56..] == info
  {
    var c := head + nonce + zeros + descriptor + version + info;
    assert c[..24] == head;
    assert c[24..32] == nonce;
    assert c[40..48] == descriptor;
    assert c[56..] == info;
  }

  lemma HeadParts()
    ensures |Head()| == 24 && Head()[..8] == SIGNATURE && Head()[8..12] == Little(2, 4)
  {
    hide Little;
    var rest := Little(0, 2) + Little(0, 2) + Little(PAYLOAD_OFFSET, 4) + Little(FLAGS, 4);
    assert Head() == SIGNATURE + Little(2, 4) + rest;
    assert Head()[..8] == SIGNATURE;
    assert Head()[8..12] == Little(2, 4);
  }

  lemma DescriptorParts(length: nat)
    requires length < 65536
    ensures var d := Descriptor(length);
            && |d| == 8 && FromLittle(d[..2]) == length && FromLittle(d[2..4]) == length
            && FromLittle(d[4..8]) == PAYLOAD_OFFSET
  {
    hide Little, FromLittle;
    var d := Descriptor(length);
    assert d[..2] == Little(length, 2) && d[2..4] == Little(length, 2) && d[4..8] == Little(PAYLOAD_OFFSET, 4);
    assert Power(2) == 65536 by { assert Power(1) == 256; }
    assert Power(4) >= Power(3) >= Power(2);
    LittleRoundTrip(length, 2);
    LittleRoundTrip(PAYLOAD_OFFSET, 4);
  }

  /** Every challenge parses as one, carries its nonce at offset 24, and the target
      information buffer read at offset 40 is exactly what was appended. */
  lemma ChallengeReadsBack(nonce: Bytes, fileTime: nat)
    requires |nonce| == 8
    ensures var c := BuildChallenge(nonce, fileTime);
            && |c| == 72 && ParseType(c) == Success(Challenge) && c[24..32] == nonce
            && SecurityBuffer(c, 40, 0) == Success(TargetInfo(fileTime))
  {
    hide Little, FromLittle, Head, Descriptor, TargetInfo;
    var info, c := TargetInfo(fileTime), BuildChallenge(nonce, fileTime);
    InfoLength(fileTime);
    HeadParts();
    DescriptorParts(|info|);
    ChallengeParts(Head(), nonce, [0, 0, 0, 0, 0, 0, 0, 0], Descriptor(|info|), VERSION, info);
    var d := Descriptor(|info|);
    assert c[0..8] == c[..24][..8] && c[8..12] == c[..24][8..12];
    assert SignatureAt(c, 0);
    FindFromLeast(c, 0, 0);
    assert c[40..42] == c[40..48][..2] && c[42..44] == c[40..48][2..4] && c[44..48] == c[40..48][4..8];
    assert c[56..56 + |info|] == c[56..];
    TwoInFour();
  }

  lemma InfoLength(fileTime: nat)
    ensures |TargetInfo(fileTime)| == 16
  {
  }

  lemma TwoInFour()
    ensures FromLittle(Little(2, 4)) == 2
  {
    assert Power(4) >= Power(3) >= Power(2) >= Power(1) == 256;
    LittleRoundTrip(2, 4);
  }
}
