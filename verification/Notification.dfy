/**
 The wire form of notifications (`src/common/notification.c`, `condition.c`,
 `evaluation.c` and `buffer-usage.c`): packed structures in the byte order of the host.

 Ratios are exact reals.  A read outside the received view fails.
 */
module Notification {
  import opened Wrappers
  import opened Bytes

  const UINT32_MAX: nat := 0xFFFF_FFFF
  const NAME_MAX: nat := 255

  const USAGE_HEADER: nat := 14
  const USAGE_EVALUATION: nat := 16

  datatype Type = UsageLow | UsageHigh

  datatype Threshold = InBytes(bytes: nat) | AsRatio(ratio: real)

  /** A buffer usage condition with its names and threshold set; a domain that is not
      set is 0. */
  datatype Condition = Condition(kind: Type, threshold: Threshold, session: seq<byte>, channel: seq<byte>, domain: int)

  datatype Evaluation = Evaluation(kind: Type, use: nat, capacity: nat)

  datatype Notification = Notification(condition: Condition, evaluation: Evaluation)

  /** A value read and how many bytes it took. */
  datatype Parsed<T> = Failure | Success(value: T, size: nat)

  function TypeByte(t: Type): byte { if t.UsageLow? then 102 else 101 }

  function TypeOf(b: byte): Option<Type> {
    if b == 102 then Some(UsageLow) else if b == 101 then Some(UsageHigh) else None
  }

  /** A byte read as a signed number, and back. */
  function Int8(b: byte): int { if b < 128 then b else b - 256 }

  function AsByte(x: int): byte { x % 256 }

  /** What the setters and the types of the source ensure of a condition. */
  ghost predicate WellTyped(c: Condition) {
    && 0 !in c.session && 0 !in c.channel && -128 <= c.domain < 128
    && (c.threshold.InBytes? ==> c.threshold.bytes < 0x1_0000_0000_0000_0000)
    && (c.threshold.AsRatio? ==> 0.0 <= c.threshold.ratio <= 1.0)
  }

  ghost predicate WellTypedEvaluation(e: Evaluation) {
    e.use < 0x1_0000_0000_0000_0000 && e.capacity < 0x1_0000_0000_0000_0000
  }

  // ---------------------------------------------------------------------
  // Fixed-point ratios
  // ---------------------------------------------------------------------

  function ToFixed(ratio: real): int { (ratio * (UINT32_MAX as real)).Floor }

  function FromFixed(v: nat): real { (v as real) / (UINT32_MAX as real) }

  /** A ratio loses less than one part in UINT32_MAX, and no more on a second trip. */
  lemma RatioTrip(ratio: real)
    requires 0.0 <= ratio <= 1.0
    ensures 0 <= ToFixed(ratio) <= UINT32_MAX && 0.0 <= FromFixed(ToFixed(ratio)) <= 1.0
    ensures ratio - 1.0 / (UINT32_MAX as real) < FromFixed(ToFixed(ratio)) <= ratio
    ensures ToFixed(FromFixed(ToFixed(ratio))) == ToFixed(ratio)
  {
    var U := UINT32_MAX as real;
    assert 0.0 <= ratio * U <= U;
    var f := ToFixed(ratio);
    assert (f as real) <= ratio * U < (f as real) + 1.0;
    assert FromFixed(f) * U == f as real;
  }

  // ---------------------------------------------------------------------
  // Serialization
  // ---------------------------------------------------------------------

  function ThresholdField(t: Threshold): int {
    if t.InBytes? then t.bytes % 0x1_0000_0000 else ToFixed(t.ratio)
  }

  predicate NamesFit(c: Condition) {
    |c.session| + 1 <= NAME_MAX && |c.channel| + 1 <= NAME_MAX
  }

  /** The names fit, and the ratio does not overflow its field. */
  predicate Serializable(c: Condition) {
    NamesFit(c) && 0 <= ThresholdField(c.threshold) <= UINT32_MAX
  }

  function UsageBytes(order: ByteOrder, c: Condition): (s: seq<byte>)
    requires Serializable(c)
    ensures |s| == USAGE_HEADER + |c.session| + 1 + |c.channel| + 1
  {
    [if c.threshold.InBytes? then 1 else 0] + Encode(order, ThresholdField(c.threshold), 4)
    + Encode(order, |c.session| + 1, 4) + Encode(order, |c.channel| + 1, 4) + [AsByte(c.domain)]
    + (c.session + [0] + (c.channel + [0]))
  }

  function ConditionBytes(order: ByteOrder, c: Condition): (s: seq<byte>)
    requires Serializable(c)
    ensures |s| == 1 + USAGE_HEADER + |c.session| + 1 + |c.channel| + 1
  {
    [TypeByte(c.kind)] + UsageBytes(order, c)
  }

  function EvaluationBytes(order: ByteOrder, e: Evaluation): (s: seq<byte>)
    ensures |s| == 1 + USAGE_EVALUATION
  {
    [TypeByte(e.kind)] + Encode(order, e.use, 8) + Encode(order, e.capacity, 8)
  }

  function NotificationBytes(order: ByteOrder, n: Notification): (s: seq<byte>)
    requires Serializable(n.condition)
    ensures |s| == 4 + |ConditionBytes(order, n.condition)| + 1 + USAGE_EVALUATION
  {
    var payload := ConditionBytes(order, n.condition) + EvaluationBytes(order, n.evaluation);
    Encode(order, |payload|, 4) + payload
  }

  /** `s` with `bytes` written over it at `at`. */
  function Splice(s: seq<byte>, at: nat, bytes: seq<byte>): (r: seq<byte>)
    requires at + |bytes| <= |s|
    ensures |r| == |s|
  {
    s[..at] + bytes + s[at + |bytes|..]
  }

  lemma SpliceAfter(s: seq<byte>, at: nat, a: seq<byte>, b: seq<byte>)
    requires at + |a| + |b| <= |s|
    ensures Splice(Splice(s, at, a), at + |a|, b) == Splice(s, at, a + b)
  {
  }

  lemma SpliceBefore(s: seq<byte>, a: seq<byte>, b: seq<byte>)
    requires |a| + |b| <= |s|
    ensures Splice(Splice(s, |a|, b), 0, a) == Splice(s, 0, a + b)
  {
  }

  /** `memcpy` into the buffer. */
  method Copy(buf: array<byte>, at: nat, bytes: seq<byte>)
    requires at + |bytes| <= buf.Length
    modifies buf
    ensures buf[..] == Splice(old(buf[..]), at, bytes)
  {
    forall i | 0 <= i < |bytes| {
      buf[at + i] := bytes[i];
    }
  }

  method SerializeUsage(order: ByteOrder, c: Condition, buf: array<byte>, at: nat) returns (size: int)
    requires at + USAGE_HEADER + |c.session| + |c.channel| + 2 <= buf.Length
    modifies buf
    ensures size >= 0 <==> Serializable(c)
    ensures size >= 0 ==> size == |UsageBytes(order, c)| && buf[..] == Splice(old(buf[..]), at, UsageBytes(order, c))
    ensures size < 0 ==> buf[..] == old(buf[..])
  {
    hide Splice, Encode, ToFixed;
    var sessionLen, channelLen := |c.session| + 1, |c.channel| + 1;
    if sessionLen > NAME_MAX || channelLen > NAME_MAX {
      return -1;
    }
    var threshold: int;
    if c.threshold.InBytes? {
      threshold := c.threshold.bytes % 0x1_0000_0000;
    } else {
      threshold := ToFixed(c.threshold.ratio);
      if threshold > UINT32_MAX || threshold < 0 {
        return -1;
      }
    }
    var header := [if c.threshold.InBytes? then 1 else 0] + Encode(order, threshold, 4)
      + Encode(order, sessionLen, 4) + Encode(order, channelLen, 4) + [AsByte(c.domain)];
    Copy(buf, at, header);
    Copy(buf, at + USAGE_HEADER, c.session + [0]);
    Copy(buf, at + USAGE_HEADER + sessionLen, c.channel + [0]);
    size := USAGE_HEADER + sessionLen + channelLen;
    SpliceAfter(old(buf[..]), at, header, c.session + [0]);
    SpliceAfter(old(buf[..]), at, header + (c.session + [0]), c.channel + [0]);
    assert UsageBytes(order, c) == header + (c.session + [0]) + (c.channel + [0]);
  }

  /** Returns the size, or -1 when the notification cannot be serialized; by then the type
      of the condition is in the buffer. */
  method Serialize(order: ByteOrder, n: Notification, buf: array<byte>) returns (size: int)
    requires 5 + USAGE_HEADER + |n.condition.session| + |n.condition.channel| + 3 + USAGE_EVALUATION <= buf.Length
    modifies buf
    ensures size >= 0 <==> Serializable(n.condition)
    ensures size >= 0 ==> size == |NotificationBytes(order, n)|
    ensures size >= 0 ==> buf[..] == Splice(old(buf[..]), 0, NotificationBytes(order, n))
    ensures size < 0 ==> buf[..] == Splice(old(buf[..]), 4, [TypeByte(n.condition.kind)])
  {
    hide Splice, Encode, UsageBytes, Serializable;
    ghost var before := buf[..];
    Copy(buf, 4, [TypeByte(n.condition.kind)]);
    var usage := SerializeUsage(order, n.condition, buf, 5);
    if usage < 0 {
      return -1;
    }
    var conditionSize := 1 + usage;
    var figures := Encode(order, n.evaluation.use, 8) + Encode(order, n.evaluation.capacity, 8);
    Copy(buf, 4 + conditionSize, [TypeByte(n.evaluation.kind)]);
    Copy(buf, 5 + conditionSize, figures);
    var evaluationSize := 1 + USAGE_EVALUATION;
    Copy(buf, 0, Encode(order, conditionSize + evaluationSize, 4));
    size := 4 + conditionSize + evaluationSize;
    PayloadSpliced(order, n, before, figures);
  }

  /** The same call without a buffer: only the names are looked at. */
  method SerializedSize(n: Notification) returns (size: int)
    ensures size >= 0 <==> NamesFit(n.condition)
    ensures forall order: ByteOrder | Serializable(n.condition) :: size == |NotificationBytes(order, n)|
  {
    var sessionLen, channelLen := |n.condition.session| + 1, |n.condition.channel| + 1;
    if sessionLen > NAME_MAX || channelLen > NAME_MAX {
      return -1;
    }
    size := 4 + 1 + USAGE_HEADER + sessionLen + channelLen + 1 + USAGE_EVALUATION;
  }

  lemma PayloadSpliced(order: ByteOrder, n: Notification, s: seq<byte>, figures: seq<byte>)
    requires Serializable(n.condition) && |NotificationBytes(order, n)| <= |s|
    requires figures == Encode(order, n.evaluation.use, 8) + Encode(order, n.evaluation.capacity, 8)
    ensures var cond, eval := [TypeByte(n.condition.kind)], [TypeByte(n.evaluation.kind)];
            var usage := UsageBytes(order, n.condition);
            var s1 := Splice(Splice(s, 4, cond), 5, usage);
            var s2 := Splice(Splice(s1, 5 + |usage|, eval), 6 + |usage|, figures);
            Splice(s2, 0, Encode(order, 1 + |usage| + 1 + USAGE_EVALUATION, 4)) == Splice(s, 0, NotificationBytes(order, n))
  {
    hide Splice, Encode, UsageBytes, Serializable;
    var cond, eval := [TypeByte(n.condition.kind)], [TypeByte(n.evaluation.kind)];
    var usage := UsageBytes(order, n.condition);
    SpliceAfter(s, 4, cond, usage);
    SpliceAfter(s, 4, cond + usage, eval);
    SpliceAfter(s, 4, cond + usage + eval, figures);
    var payload := cond + usage + eval + figures;
    SpliceBefore(s, Encode(order, |payload|, 4), payload);
    assert EvaluationBytes(order, n.evaluation) == eval + figures;
    assert payload == ConditionBytes(order, n.condition) + EvaluationBytes(order, n.evaluation);
  }

  // ---------------------------------------------------------------------
  // Deserialization
  // ---------------------------------------------------------------------

  /** The C string at the beginning of `s`, if it ends within `s`. */
  function CString(s: seq<byte>): Option<seq<byte>> {
    if s == [] then None else if s[0] == 0 then Some([]) else
      match CString(s[1..])
      case None => None
      case Some(rest) => Some([s[0]] + rest)
  }

  /** `init_condition_from_buffer`.  A length of 0 makes the source look at the byte
      before the name: the domain, which is not 0, or the end of the session name, which is. */
  function ParseUsage(order: ByteOrder, kind: Type, view: seq<byte>): Parsed<Condition> {
    if |view| < USAGE_HEADER then Failure else
      var threshold := Decode(order, view[1..5]);
      var sessionLen := Decode(order, view[5..9]);
      var channelLen := Decode(order, view[9..13]);
      var domain := Int8(view[13]);
      var names := view[USAGE_HEADER..];
      if sessionLen > NAME_MAX || channelLen > NAME_MAX then Failure
      else if |names| < sessionLen + channelLen then Failure
      else if domain <= 0 || domain > 5 then Failure
      else if sessionLen == 0 || names[sessionLen - 1] != 0 then Failure
      else if names[sessionLen + channelLen - 1] != 0 then Failure
      else
        match (CString(names), CString(names[sessionLen..]))
        case (Some(session), Some(channel)) =>
          if session == [] || channel == [] then Failure
          else Success(Condition(kind, if view[0] != 0 then InBytes(threshold) else AsRatio(FromFixed(threshold)),
                                 session, channel, domain),
                       USAGE_HEADER + sessionLen + channelLen)
        case _ => Failure
  }

  function ParseCondition(order: ByteOrder, view: seq<byte>): Parsed<Condition> {
    if view == [] then Failure else
      match TypeOf(view[0])
      case None => Failure
      case Some(kind) =>
        match ParseUsage(order, kind, view[1..])
        case Failure => Failure
        case Success(c, size) => Success(c, 1 + size)
  }

  function ParseEvaluation(order: ByteOrder, view: seq<byte>): Parsed<Evaluation> {
    if view == [] then Failure else
      match TypeOf(view[0])
      case None => Failure
      case Some(kind) =>
        if |view| < 1 + USAGE_EVALUATION then Failure
        else Success(Evaluation(kind, Decode(order, view[1..9]), Decode(order, view[9..17])), 1 + USAGE_EVALUATION)
  }

  /** `lttng_notification_create_from_buffer`. */
  function Parse(order: ByteOrder, view: seq<byte>): Parsed<Notification> {
    if |view| < 4 then Failure else
      var body := view[4..];
      match ParseCondition(order, body)
      case Failure => Failure
      case Success(condition, conditionSize) =>
        if conditionSize > |body| then Failure else
          match ParseEvaluation(order, body[conditionSize..])
          case Failure => Failure
          case Success(evaluation, evaluationSize) =>
            if Decode(order, view[..4]) != conditionSize + evaluationSize then Failure
            else Success(Notification(condition, evaluation), 4 + conditionSize + evaluationSize)
  }

  // ---------------------------------------------------------------------
  // The round trip
  // ---------------------------------------------------------------------

  /** What survives of a threshold. */
  function ReceivedThreshold(t: Threshold): Threshold
    requires ThresholdField(t) >= 0
  {
    if t.InBytes? then InBytes(ThresholdField(t)) else AsRatio(FromFixed(ThresholdField(t)))
  }

  function Received(c: Condition): Condition
    requires Serializable(c)
  {
    c.(threshold := ReceivedThreshold(c.threshold))
  }

  /** Both names and the domain were set. */
  predicate Complete(c: Condition) {
    c.session != [] && c.channel != [] && 1 <= c.domain <= 5
  }

  lemma {:induction false} CStringEnds(name: seq<byte>, rest: seq<byte>)
    requires 0 !in name
    ensures CString(name + [0] + rest) == Some(name)
  {
    var s := name + [0] + rest;
    if name == [] {
      assert s[0] == 0;
    } else {
      assert s[0] == name[0] && s[1..] == name[1..] + [0] + rest;
      CStringEnds(name[1..], rest);
      assert [name[0]] + name[1..] == name;
    }
  }

  /** Where the fields of a serialized condition are. */
  lemma UsageFields(order: ByteOrder, c: Condition, tail: seq<byte>)
    requires Serializable(c)
    ensures var view := UsageBytes(order, c) + tail;
            && view[0] == (if c.threshold.InBytes? then 1 else 0)
            && view[1..5] == Encode(order, ThresholdField(c.threshold), 4)
            && view[5..9] == Encode(order, |c.session| + 1, 4) && view[9..13] == Encode(order, |c.channel| + 1, 4)
            && view[13] == AsByte(c.domain) && view[14..] == c.session + [0] + (c.channel + [0] + tail)
  {
    hide Encode, ThresholdField;
    var view := UsageBytes(order, c) + tail;
    var names := c.session + [0] + (c.channel + [0]);
    assert view[14..] == names + tail;
  }

  lemma Int8Inverse(x: int)
    requires -128 <= x < 128
    ensures Int8(AsByte(x)) == x
  {
  }

  /** What a reader makes of those fields. */
  lemma UsageDecoded(order: ByteOrder, c: Condition, tail: seq<byte>)
    requires WellTyped(c) && Serializable(c)
    ensures var view := UsageBytes(order, c) + tail;
            && Decode(order, view[1..5]) == ThresholdField(c.threshold) && Decode(order, view[5..9]) == |c.session| + 1
            && Decode(order, view[9..13]) == |c.channel| + 1 && Int8(view[13]) == c.domain
  {
    hide Encode, Decode, ThresholdField, UsageBytes, Int8, AsByte, Bound;
    UsageFields(order, c, tail);
    Int8Inverse(c.domain);
    Bounds();
    DecodeEncode(order, ThresholdField(c.threshold), 4);
    DecodeEncode(order, |c.session| + 1, 4);
    DecodeEncode(order, |c.channel| + 1, 4);
  }

  lemma NamesDecoded(c: Condition, tail: seq<byte>)
    requires 0 !in c.session && 0 !in c.channel
    ensures var names := c.session + [0] + (c.channel + [0] + tail);
            && CString(names) == Some(c.session) && CString(names[|c.session| + 1..]) == Some(c.channel)
            && names[|c.session|] == 0 && names[|c.session| + 1 + |c.channel|] == 0
  {
    CStringEnds(c.session, c.channel + [0] + tail);
    CStringEnds(c.channel, tail);
    var names := c.session + [0] + (c.channel + [0] + tail);
    assert names[|c.session| + 1..] == c.channel + [0] + tail;
  }

  lemma UsageRoundTrip(order: ByteOrder, c: Condition, tail: seq<byte>)
    requires WellTyped(c) && Serializable(c)
    ensures ParseUsage(order, c.kind, UsageBytes(order, c) + tail) ==
            if Complete(c) then Success(Received(c), |UsageBytes(order, c)|) else Failure
  {
    hide Encode, Decode, ThresholdField, UsageBytes, CString, FromFixed, Int8, AsByte;
    UsageFields(order, c, tail);
    UsageDecoded(order, c, tail);
    NamesDecoded(c, tail);
  }

  lemma ConditionRoundTrip(order: ByteOrder, c: Condition, tail: seq<byte>)
    requires WellTyped(c) && Serializable(c)
    ensures ParseCondition(order, ConditionBytes(order, c) + tail) ==
            if Complete(c) then Success(Received(c), |ConditionBytes(order, c)|) else Failure
  {
    hide ParseUsage, UsageBytes, WellTyped, Serializable;
    UsageRoundTrip(order, c, tail);
    assert (ConditionBytes(order, c) + tail)[1..] == UsageBytes(order, c) + tail;
  }

  lemma EvaluationRoundTrip(order: ByteOrder, e: Evaluation, tail: seq<byte>)
    requires WellTypedEvaluation(e)
    ensures ParseEvaluation(order, EvaluationBytes(order, e) + tail) == Success(e, 1 + USAGE_EVALUATION)
  {
    hide Encode, Decode, Bound;
    Bounds();
    DecodeEncode(order, e.use, 8);
    DecodeEncode(order, e.capacity, 8);
    var view := EvaluationBytes(order, e) + tail;
    assert view[1..9] == Encode(order, e.use, 8) && view[9..17] == Encode(order, e.capacity, 8);
  }

  /** A serialized notification, followed by anything, is read back with exactly its own
      size: the evaluation as it was, the condition as it was but for the precision of its
      threshold; one that is not complete is refused. */
  lemma RoundTrip(order: ByteOrder, n: Notification, tail: seq<byte>)
    requires WellTyped(n.condition) && WellTypedEvaluation(n.evaluation) && Serializable(n.condition)
    ensures Parse(order, NotificationBytes(order, n) + tail) ==
            if Complete(n.condition)
            then Success(Notification(Received(n.condition), n.evaluation), |NotificationBytes(order, n)|) else Failure
  {
    hide Encode, Decode, Bound, ParseCondition, ParseEvaluation, ConditionBytes, EvaluationBytes;
    hide WellTyped, WellTypedEvaluation, Received, Complete;
    var c, e := ConditionBytes(order, n.condition), EvaluationBytes(order, n.evaluation);
    ConditionRoundTrip(order, n.condition, e + tail);
    EvaluationRoundTrip(order, n.evaluation, tail);
    LengthDecoded(order, |c + e|);
    NotificationFields(order, n, tail);
  }

  lemma LengthDecoded(order: ByteOrder, size: nat)
    requires size < 0x1_0000_0000
    ensures Decode(order, Encode(order, size, 4)) == size
  {
    Bounds();
    DecodeEncode(order, size, 4);
  }

  lemma NotificationFields(order: ByteOrder, n: Notification, tail: seq<byte>)
    requires Serializable(n.condition)
    ensures var c, e := ConditionBytes(order, n.condition), EvaluationBytes(order, n.evaluation);
            var view := NotificationBytes(order, n) + tail;
            && view[..4] == Encode(order, |c + e|, 4) && view[4..] == c + (e + tail) && view[4..][|c|..] == e + tail
  {
    hide Encode, ConditionBytes, EvaluationBytes, Serializable;
  }

  /** The very same notification comes back exactly when it is complete and its threshold
      is below 2^32 bytes, or a ratio with a fixed-point form. */
  lemma RoundTripExactly(order: ByteOrder, n: Notification, tail: seq<byte>)
    requires WellTyped(n.condition) && WellTypedEvaluation(n.evaluation) && Serializable(n.condition)
    ensures Parse(order, NotificationBytes(order, n) + tail) == Success(n, |NotificationBytes(order, n)|) <==>
            && Complete(n.condition)
            && match n.condition.threshold
               case InBytes(b) => b < 0x1_0000_0000
               case AsRatio(r) => r == FromFixed(ToFixed(r))
  {
    hide Parse, NotificationBytes, FromFixed, ToFixed, WellTyped, WellTypedEvaluation;
    RoundTrip(order, n, tail);
    ThresholdKept(n.condition.threshold);
  }

  lemma ThresholdKept(t: Threshold)
    requires ThresholdField(t) >= 0
    ensures ReceivedThreshold(t) == t <==>
            match t
            case InBytes(b) => b < 0x1_0000_0000
            case AsRatio(r) => r == FromFixed(ToFixed(r))
  {
  }

  /** What was received once is received unchanged the next time. */
  lemma ReceivedIsStable(c: Condition)
    requires WellTyped(c) && Serializable(c)
    ensures Serializable(Received(c)) && Received(Received(c)) == Received(c)
  {
    if c.threshold.AsRatio? { RatioTrip(c.threshold.ratio); }
    hide FromFixed, ToFixed;
  }

  /** Every condition the setters accept can be serialized when its names fit, with the
      zero that ends them, in 255 bytes. */
  lemma NamesDecide(c: Condition)
    requires WellTyped(c)
    ensures Serializable(c) <==> |c.session| < 255 && |c.channel| < 255
  {
    if c.threshold.AsRatio? { RatioTrip(c.threshold.ratio); }
    hide FromFixed, ToFixed;
  }
}
