/**
 Which bytes are a notification: the layout of `struct lttng_notification_comm`,
 `lttng_condition_comm`, `lttng_condition_buffer_usage_comm`, `lttng_evaluation_comm` and
 `lttng_evaluation_buffer_usage_comm`, byte by byte.
 */
module NotificationWire {
  import opened Wrappers
  import opened Bytes
  import opened Notification

  /** `name` and the zero that ends it, at `at`. */
  ghost predicate StringAt(view: seq<byte>, at: nat, name: seq<byte>) {
    0 !in name && at + |name| < |view| && view[at..at + |name|] == name && view[at + |name|] == 0
  }

  ghost predicate TypeAt(view: seq<byte>, at: nat, kind: Type) {
    at < |view| && view[at] == match kind case UsageLow => 102 case UsageHigh => 101
  }

  /** A threshold of `v`, or `v` parts of 2^32 - 1. */
  ghost predicate ThresholdIs(t: Threshold, v: nat) {
    match t
    case InBytes(b) => b == v
    case AsRatio(r) => r * 4294967295.0 == v as real
  }

  /** A buffer usage condition at `at`, with name lengths `sessionLen` and `channelLen`. */
  ghost predicate UsageAt(order: ByteOrder, view: seq<byte>, at: nat, c: Condition, v: nat, sessionLen: nat,
                          channelLen: nat) {
    && at + 14 + sessionLen + channelLen <= |view|
    && (view[at] != 0 <==> c.threshold.InBytes?) && FieldAt(order, view, at + 1, 4, v) && ThresholdIs(c.threshold, v)
    && 1 <= sessionLen <= 255 && FieldAt(order, view, at + 5, 4, sessionLen)
    && channelLen <= 255 && FieldAt(order, view, at + 9, 4, channelLen)
    && 1 <= c.domain <= 5 && view[at + 13] == c.domain
    && view[at + 13 + sessionLen] == 0 && view[at + 13 + sessionLen + channelLen] == 0
    && c.session != [] && StringAt(view, at + 14, c.session)
    && c.channel != [] && StringAt(view, at + 14 + sessionLen, c.channel)
  }

  ghost predicate ConditionAt(order: ByteOrder, view: seq<byte>, at: nat, c: Condition, v: nat, sessionLen: nat,
                              channelLen: nat) {
    TypeAt(view, at, c.kind) && UsageAt(order, view, at + 1, c, v, sessionLen, channelLen)
  }

  ghost predicate EvaluationAt(order: ByteOrder, view: seq<byte>, at: nat, e: Evaluation) {
    TypeAt(view, at, e.kind) && FieldAt(order, view, at + 1, 8, e.use) && FieldAt(order, view, at + 9, 8, e.capacity)
  }

  /** The `size` bytes from the beginning of `view` are notification `n`. */
  ghost predicate NotificationAt(order: ByteOrder, view: seq<byte>, n: Notification, v: nat, sessionLen: nat,
                                 channelLen: nat, size: nat) {
    && size == 36 + sessionLen + channelLen
    && FieldAt(order, view, 0, 4, size - 4)
    && ConditionAt(order, view, 4, n.condition, v, sessionLen, channelLen)
    && EvaluationAt(order, view, size - 17, n.evaluation)
  }

  // ---------------------------------------------------------------------
  // What is read
  // ---------------------------------------------------------------------

  lemma {:induction false} CStringIs(view: seq<byte>, at: nat, name: seq<byte>)
    requires at <= |view|
    ensures CString(view[at..]) == Some(name) <==> StringAt(view, at, name)
    decreases |view| - at
  {
    if at == |view| {
    } else if view[at] == 0 {
    } else {
      assert view[at..][1..] == view[at + 1..];
      if name == [] {
      } else {
        CStringIs(view, at + 1, name[1..]);
        NameSplits(view, at, name);
        assert name == [name[0]] + name[1..];
        hide StringAt;
        if CString(view[at..]) == Some(name) {
          assert name[1..] == CString(view[at + 1..]).value;
        }
      }
    }
  }

  lemma NameSplits(view: seq<byte>, at: nat, name: seq<byte>)
    requires at < |view| && view[at] != 0 && name != []
    ensures StringAt(view, at, name) <==> name[0] == view[at] && StringAt(view, at + 1, name[1..])
  {
    if at + |name| < |view| {
      assert view[at..at + |name|] == [view[at]] + view[at + 1..at + |name|];
      assert name == [name[0]] + name[1..];
    }
  }

  lemma TypeIs(view: seq<byte>, at: nat, kind: Type)
    requires at < |view|
    ensures TypeOf(view[at]) == Some(kind) <==> TypeAt(view, at, kind)
  {
  }

  /** The threshold that field `v` stands for. */
  lemma ThresholdRead(inBytes: bool, v: nat, t: Threshold)
    ensures t == (if inBytes then InBytes(v) else AsRatio(FromFixed(v))) <==> t.InBytes? == inBytes && ThresholdIs(t, v)
  {
  }

  lemma HeaderIs(order: ByteOrder, view: seq<byte>, at: nat, v: nat, sessionLen: nat, channelLen: nat)
    requires at + 14 <= |view|
    ensures var usage := view[at..];
            && (FieldAt(order, view, at + 1, 4, v) <==> Decode(order, usage[1..5]) == v)
            && (FieldAt(order, view, at + 5, 4, sessionLen) <==> Decode(order, usage[5..9]) == sessionLen)
            && (FieldAt(order, view, at + 9, 4, channelLen) <==> Decode(order, usage[9..13]) == channelLen)
  {
    hide FieldAt, Decode;
    FieldIs(order, view, at + 1, 4, v);
    FieldIs(order, view, at + 5, 4, sessionLen);
    FieldIs(order, view, at + 9, 4, channelLen);
    assert view[at..][1..5] == view[at + 1..at + 5];
    assert view[at..][5..9] == view[at + 5..at + 9];
    assert view[at..][9..13] == view[at + 9..at + 13];
  }

  lemma UsageRead(order: ByteOrder, kind: Type, view: seq<byte>, at: nat, c: Condition, v: nat, sessionLen: nat,
                  channelLen: nat)
    requires at + 14 <= |view| && Decode(order, view[at..][1..5]) == v
    requires Decode(order, view[at..][5..9]) == sessionLen && Decode(order, view[at..][9..13]) == channelLen
    ensures ParseUsage(order, kind, view[at..]) == Success(c, 14 + sessionLen + channelLen) <==>
            c.kind == kind && UsageAt(order, view, at, c, v, sessionLen, channelLen)
  {
    hide FieldAt, Decode, CString, StringAt, ThresholdIs, FromFixed;
    HeaderIs(order, view, at, v, sessionLen, channelLen);
    ThresholdRead(view[at] != 0, v, c.threshold);
    var names := view[at..][USAGE_HEADER..];
    assert names == view[at + 14..];
    CStringIs(view, at + 14, c.session);
    if at + 14 + sessionLen <= |view| {
      assert names[sessionLen..] == view[at + 14 + sessionLen..];
      CStringIs(view, at + 14 + sessionLen, c.channel);
    }
  }

  lemma UsageExactly(order: ByteOrder, kind: Type, view: seq<byte>, at: nat, c: Condition, size: nat)
    requires at <= |view|
    ensures ParseUsage(order, kind, view[at..]) == Success(c, size) <==>
            && c.kind == kind
            && exists v: nat, sessionLen: nat, channelLen: nat ::
                 UsageAt(order, view, at, c, v, sessionLen, channelLen) && size == 14 + sessionLen + channelLen
  {
    hide UsageAt, Decode;
    if ParseUsage(order, kind, view[at..]) == Success(c, size) {
      var usage := view[at..];
      hide CString;
      var v, sessionLen, channelLen := Decode(order, usage[1..5]), Decode(order, usage[5..9]), Decode(order, usage[9..13]);
      assert size == 14 + sessionLen + channelLen;
      hide ParseUsage;
      UsageRead(order, kind, view, at, c, v, sessionLen, channelLen);
    } else {
      hide ParseUsage;
      forall v: nat, sessionLen: nat, channelLen: nat
        | UsageAt(order, view, at, c, v, sessionLen, channelLen) && c.kind == kind
        ensures ParseUsage(order, kind, view[at..]) == Success(c, 14 + sessionLen + channelLen)
      {
        UsageIsRead(order, view, at, c, v, sessionLen, channelLen);
      }
    }
  }

  lemma UsageIsRead(order: ByteOrder, view: seq<byte>, at: nat, c: Condition, v: nat, sessionLen: nat, channelLen: nat)
    requires at <= |view| && UsageAt(order, view, at, c, v, sessionLen, channelLen)
    ensures ParseUsage(order, c.kind, view[at..]) == Success(c, 14 + sessionLen + channelLen)
  {
    HeaderIs(order, view, at, v, sessionLen, channelLen);
    hide ParseUsage, Decode, FieldAt, StringAt, ThresholdIs;
    UsageRead(order, c.kind, view, at, c, v, sessionLen, channelLen);
  }

  lemma UsageKind(order: ByteOrder, kind: Type, usage: seq<byte>)
    ensures var r := ParseUsage(order, kind, usage); r.Success? ==> r.value.kind == kind
  {
  }

  lemma ConditionSplits(order: ByteOrder, view: seq<byte>, c: Condition, size: nat)
    ensures ParseCondition(order, view) == Success(c, size) <==>
            && view != [] && TypeOf(view[0]) == Some(c.kind)
            && size > 0 && ParseUsage(order, c.kind, view[1..]) == Success(c, size - 1)
  {
    hide ParseUsage, TypeOf;
    if view != [] && TypeOf(view[0]).Some? {
      UsageKind(order, TypeOf(view[0]).value, view[1..]);
    }
  }

  lemma ConditionExactly(order: ByteOrder, view: seq<byte>, at: nat, c: Condition, size: nat)
    requires at <= |view|
    ensures ParseCondition(order, view[at..]) == Success(c, size) <==>
            exists v: nat, sessionLen: nat, channelLen: nat ::
              ConditionAt(order, view, at, c, v, sessionLen, channelLen) && size == 15 + sessionLen + channelLen
  {
    hide ParseCondition, ParseUsage, UsageAt, TypeOf;
    ConditionSplits(order, view[at..], c, size);
    if at < |view| {
      TypeIs(view, at, c.kind);
      hide TypeAt;
      assert view[at..][1..] == view[at + 1..];
      if ParseCondition(order, view[at..]) == Success(c, size) {
        var u := at + 1;
        UsageExactly(order, c.kind, view, u, c, size - 1);
        var v: nat, sessionLen: nat, channelLen: nat :|
          UsageAt(order, view, u, c, v, sessionLen, channelLen) && size - 1 == 14 + sessionLen + channelLen;
        assert ConditionAt(order, view, at, c, v, sessionLen, channelLen);
      } else if v: nat, sessionLen: nat, channelLen: nat :|
        ConditionAt(order, view, at, c, v, sessionLen, channelLen) && size == 15 + sessionLen + channelLen {
        UsageIsRead(order, view, at + 1, c, v, sessionLen, channelLen);
        assert false;
      }
    }
  }

  lemma EvaluationExactly(order: ByteOrder, view: seq<byte>, at: nat, e: Evaluation, size: nat)
    requires at <= |view|
    ensures ParseEvaluation(order, view[at..]) == Success(e, size) <==> size == 17 && EvaluationAt(order, view, at, e)
  {
    hide Decode, TypeOf, TypeAt, Bound, Digit;
    if at + 17 <= |view| {
      TypeIs(view, at, e.kind);
      FieldIs(order, view, at + 1, 8, e.use);
      FieldIs(order, view, at + 9, 8, e.capacity);
      assert view[at..][1..9] == view[at + 1..at + 9];
      assert view[at..][9..17] == view[at + 9..at + 17];
    }
  }

  /** A notification is read exactly from the bytes that are one: every other view is
      refused, and what is read is what the bytes say. */
  lemma ParseExactly(order: ByteOrder, view: seq<byte>, n: Notification, size: nat)
    ensures Parse(order, view) == Success(n, size) <==>
            exists v: nat, sessionLen: nat, channelLen: nat ::
              NotificationAt(order, view, n, v, sessionLen, channelLen, size)
  {
    hide ParseCondition, ParseEvaluation, Decode, ConditionAt, EvaluationAt, Bound, Digit;
    if Parse(order, view) == Success(n, size) {
      var conditionSize := ParseCondition(order, view[4..]).size;
      ConditionExactly(order, view, 4, n.condition, conditionSize);
      assert view[4..][conditionSize..] == view[4 + conditionSize..];
      EvaluationExactly(order, view, 4 + conditionSize, n.evaluation, size - 4 - conditionSize);
      FieldIs(order, view, 0, 4, size - 4);
      var v: nat, sessionLen: nat, channelLen: nat :|
        && ConditionAt(order, view, 4, n.condition, v, sessionLen, channelLen)
        && conditionSize == 15 + sessionLen + channelLen;
      assert NotificationAt(order, view, n, v, sessionLen, channelLen, size);
    } else if v: nat, sessionLen: nat, channelLen: nat :|
      NotificationAt(order, view, n, v, sessionLen, channelLen, size) {
      NotificationIsRead(order, view, n, v, sessionLen, channelLen, size);
      assert false;
    }
  }

  lemma NotificationIsRead(order: ByteOrder, view: seq<byte>, n: Notification, v: nat, sessionLen: nat, channelLen: nat,
                           size: nat)
    requires NotificationAt(order, view, n, v, sessionLen, channelLen, size)
    ensures Parse(order, view) == Success(n, size)
  {
    hide ParseCondition, ParseEvaluation, Decode, ConditionAt, Bound, Digit, TypeAt;
    assert size - 17 <= |view|;
    hide EvaluationAt;
    FieldIs(order, view, 0, 4, size - 4);
    hide FieldAt;
    ConditionExactly(order, view, 4, n.condition, size - 21);
    assert view[4..][size - 21..] == view[size - 17..];
    EvaluationExactly(order, view, size - 17, n.evaluation, 17);
  }

  // ---------------------------------------------------------------------
  // What is written
  // ---------------------------------------------------------------------

  /** The field that a threshold is sent as: bytes modulo 2^32, or a ratio rounded down. */
  ghost predicate SentAs(t: Threshold, v: nat) {
    match t
    case InBytes(b) => v == b % 0x1_0000_0000
    case AsRatio(r) => v as real <= r * 4294967295.0 < v as real + 1.0
  }

  lemma FieldIsThere(order: ByteOrder, s: seq<byte>, at: nat, k: nat, v: nat)
    requires at + k <= |s| && s[at..at + k] == Encode(order, v, k) && v < Bound(k)
    ensures FieldAt(order, s, at, k, v)
  {
    hide Encode, Decode, Bound, Digit;
    DecodeEncode(order, v, k);
    FieldIs(order, s, at, k, v);
  }

  /** The bytes of a serialized condition. */
  lemma UsageWritten(order: ByteOrder, c: Condition, front: seq<byte>, tail: seq<byte>)
    requires WellTyped(c) && Serializable(c)
    ensures var s := front + UsageBytes(order, c) + tail;
            var at := |front|;
            && s[at] == (if c.threshold.InBytes? then 1 else 0)
            && FieldAt(order, s, at + 1, 4, ThresholdField(c.threshold))
            && FieldAt(order, s, at + 5, 4, |c.session| + 1) && FieldAt(order, s, at + 9, 4, |c.channel| + 1)
            && s[at + 13] == c.domain % 256
            && StringAt(s, at + 14, c.session) && StringAt(s, at + 15 + |c.session|, c.channel)
  {
    hide Encode, FieldAt, UsageBytes, Bound, ThresholdField, StringAt, ToFixed;
    var usage := UsageBytes(order, c) + tail;
    var s, at := front + UsageBytes(order, c) + tail, |front|;
    assert s == front + usage;
    UsageFields(order, c, tail);
    FieldMoved(order, usage, front, 1, ThresholdField(c.threshold));
    FieldMoved(order, usage, front, 5, |c.session| + 1);
    FieldMoved(order, usage, front, 9, |c.channel| + 1);
    assert s[at] == usage[0] && s[at + 13] == usage[13] && s[at + 14..] == usage[14..];
    NamesWritten(s, at + 14, c, tail);
  }

  lemma FieldMoved(order: ByteOrder, usage: seq<byte>, front: seq<byte>, at: nat, v: nat)
    requires at + 4 <= |usage| && usage[at..at + 4] == Encode(order, v, 4) && v <= UINT32_MAX
    ensures FieldAt(order, front + usage, |front| + at, 4, v)
  {
    hide Encode, FieldAt, Bound;
    Bounds();
    var s := front + usage;
    assert s[|front| + at..|front| + at + 4] == usage[at..at + 4];
    FieldIsThere(order, s, |front| + at, 4, v);
  }

  lemma NamesWritten(s: seq<byte>, at: nat, c: Condition, tail: seq<byte>)
    requires 0 !in c.session && 0 !in c.channel
    requires at <= |s| && s[at..] == c.session + [0] + (c.channel + [0] + tail)
    ensures StringAt(s, at, c.session) && StringAt(s, at + 1 + |c.session|, c.channel)
  {
    NamesDecoded(c, tail);
    hide CString, StringAt;
    CStringIs(s, at, c.session);
    assert s[at..][|c.session| + 1..] == s[at + 1 + |c.session|..];
    CStringIs(s, at + 1 + |c.session|, c.channel);
  }

  lemma EvaluationWritten(order: ByteOrder, e: Evaluation, front: seq<byte>, tail: seq<byte>)
    requires WellTypedEvaluation(e)
    ensures EvaluationAt(order, front + EvaluationBytes(order, e) + tail, |front|, e)
  {
    var s := front + EvaluationBytes(order, e) + tail;
    hide Decode, FieldAt, EvaluationBytes;
    EvaluationRoundTrip(order, e, tail);
    assert s[|front|..] == EvaluationBytes(order, e) + tail;
    EvaluationExactly(order, s, |front|, e, 17);
  }

  /** Every byte of a serialized notification. */
  lemma Written(order: ByteOrder, n: Notification, tail: seq<byte>)
    requires WellTyped(n.condition) && WellTypedEvaluation(n.evaluation) && Serializable(n.condition)
    ensures var s := NotificationBytes(order, n) + tail;
            var c, sessionLen, channelLen := n.condition, |n.condition.session| + 1, |n.condition.channel| + 1;
            && |NotificationBytes(order, n)| == 36 + sessionLen + channelLen
            && FieldAt(order, s, 0, 4, 32 + sessionLen + channelLen) && TypeAt(s, 4, c.kind)
            && s[5] == (if c.threshold.InBytes? then 1 else 0)
            && FieldAt(order, s, 6, 4, ThresholdField(c.threshold)) && SentAs(c.threshold, ThresholdField(c.threshold))
            && FieldAt(order, s, 10, 4, sessionLen) && FieldAt(order, s, 14, 4, channelLen)
            && s[18] == c.domain % 256
            && StringAt(s, 19, c.session) && StringAt(s, 19 + sessionLen, c.channel)
            && EvaluationAt(order, s, 19 + sessionLen + channelLen, n.evaluation)
  {
    hide Encode, UsageBytes, EvaluationBytes, FieldAt, StringAt, ThresholdField, Bound, EvaluationAt, SentAs;
    hide TypeByte, TypeAt, WellTyped, Serializable;
    var c, e := n.condition, n.evaluation;
    var front := FrontOf(order, c);
    FrontIs(order, n, tail);
    UsageWritten(order, c, front, EvaluationBytes(order, e) + tail);
    EvaluationWritten(order, e, front + UsageBytes(order, c), tail);
    IsSentAs(c);
  }

  /** What comes before the condition. */
  function FrontOf(order: ByteOrder, c: Condition): (s: seq<byte>)
    ensures |s| == 5
  {
    Encode(order, 34 + |c.session| + |c.channel|, 4) + [TypeByte(c.kind)]
  }

  lemma FrontIs(order: ByteOrder, n: Notification, tail: seq<byte>)
    requires Serializable(n.condition)
    ensures var c, e := n.condition, n.evaluation;
            var s := NotificationBytes(order, n) + tail;
            && s == FrontOf(order, c) + UsageBytes(order, c) + (EvaluationBytes(order, e) + tail)
            && s == FrontOf(order, c) + UsageBytes(order, c) + EvaluationBytes(order, e) + tail
            && FieldAt(order, s, 0, 4, 34 + |c.session| + |c.channel|) && TypeAt(s, 4, c.kind)
  {
    hide Encode, UsageBytes, EvaluationBytes, FieldAt, Bound;
    var c, e := n.condition, n.evaluation;
    var length := Encode(order, 34 + |c.session| + |c.channel|, 4);
    Regrouped(length, [TypeByte(c.kind)], UsageBytes(order, c), EvaluationBytes(order, e), tail);
    var rest := UsageBytes(order, c) + (EvaluationBytes(order, e) + tail);
    FrontFields(order, c, rest);
    assert FrontOf(order, c) + rest == FrontOf(order, c) + UsageBytes(order, c) + (EvaluationBytes(order, e) + tail);
  }

  lemma Regrouped(a: seq<byte>, b: seq<byte>, c: seq<byte>, d: seq<byte>, e: seq<byte>)
    ensures a + (b + c + d) + e == a + b + c + (d + e) && a + (b + c + d) + e == a + b + c + d + e
  {
  }

  lemma FrontFields(order: ByteOrder, c: Condition, rest: seq<byte>)
    requires NamesFit(c)
    ensures var s := FrontOf(order, c) + rest;
            FieldAt(order, s, 0, 4, 34 + |c.session| + |c.channel|) && TypeAt(s, 4, c.kind)
  {
    hide Encode, FieldAt, Bound;
    var s := FrontOf(order, c) + rest;
    assert s[0..4] == Encode(order, 34 + |c.session| + |c.channel|, 4);
    Bounds();
    FieldIsThere(order, s, 0, 4, 34 + |c.session| + |c.channel|);
  }

  lemma IsSentAs(c: Condition)
    requires WellTyped(c) && Serializable(c)
    ensures SentAs(c.threshold, ThresholdField(c.threshold))
  {
    if c.threshold.AsRatio? { RatioTrip(c.threshold.ratio); }
  }
}
