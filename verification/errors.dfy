/**
 * The client's error values and the messages they render: API errors, rate-limit
 * errors, and the "time until reset" text appended to rate-limit messages.
 */
module Errors {
  import opened Wrappers
  import opened GoStrings
  import opened GoTime
  import opened RateLimit
  import opened Http

  // ---------------------------------------------------------------------------
  // fmt.Sprintf with plain verbs: literal text around already-rendered arguments
  // ---------------------------------------------------------------------------

  /** A format string cut at its verbs, `lits[0] args[0] lits[1] ... args[n-1] lits[n]`. */
  function Format(lits: seq<string>, args: seq<string>): string
    requires |lits| == |args| + 1
  {
    if |args| == 0 then lits[0] else lits[0] + args[0] + Format(lits[1..], args[1..])
  }

  /** The position at which `args[i]` begins in Format(lits, args). */
  function ArgStart(lits: seq<string>, args: seq<string>, i: nat): nat
    requires |lits| == |args| + 1 && i < |args|
  {
    |lits[0]| + (if i == 0 then 0 else |args[0]| + ArgStart(lits[1..], args[1..], i - 1))
  }

  /** Each argument appears verbatim at its start position, after every earlier argument. */
  lemma FormatPlacesArgs(lits: seq<string>, args: seq<string>, i: nat)
    requires |lits| == |args| + 1 && i < |args|
    ensures ArgStart(lits, args, i) + |args[i]| <= |Format(lits, args)|
    ensures Format(lits, args)[ArgStart(lits, args, i)..ArgStart(lits, args, i) + |args[i]|] == args[i]
    ensures i + 1 < |args| ==> ArgStart(lits, args, i) + |args[i]| + |lits[i + 1]| == ArgStart(lits, args, i + 1)
  {
    FormatHasArg(lits, args, i);
    if i + 1 < |args| {
      ArgStartStep(lits, args, i);
    }
  }

  lemma {:induction false} FormatHasArg(lits: seq<string>, args: seq<string>, i: nat)
    requires |lits| == |args| + 1 && i < |args|
    ensures ArgStart(lits, args, i) + |args[i]| <= |Format(lits, args)|
    ensures Format(lits, args)[ArgStart(lits, args, i)..ArgStart(lits, args, i) + |args[i]|] == args[i]
  {
    var f := Format(lits, args);
    var tail := Format(lits[1..], args[1..]);
    assert f == lits[0] + args[0] + tail;
    if i == 0 {
      assert f[|lits[0]|..|lits[0]| + |args[0]|] == args[0];
    } else {
      FormatHasArg(lits[1..], args[1..], i - 1);
      var k := |lits[0]| + |args[0]|;
      var s := ArgStart(lits[1..], args[1..], i - 1);
      var n := |args[i]|;
      assert f[k..] == tail;
      assert tail[s..s + n] == args[i];
      assert forall j :: k + s <= j < k + s + n ==> f[j] == tail[j - k];
      assert f[k + s..k + s + n] == tail[s..s + n];
    }
  }

  lemma {:induction false} ArgStartStep(lits: seq<string>, args: seq<string>, i: nat)
    requires |lits| == |args| + 1 && i + 1 < |args|
    ensures ArgStart(lits, args, i) + |args[i]| + |lits[i + 1]| == ArgStart(lits, args, i + 1)
  {
    if i == 0 {
      assert ArgStart(lits[1..], args[1..], 0) == |lits[1]|;
    } else {
      ArgStartStep(lits[1..], args[1..], i - 1);
    }
  }

  /** A format that ends with a verb ends with that verb's argument. */
  lemma {:induction false} FormatEndsWithLastArg(lits: seq<string>, args: seq<string>)
    requires |lits| == |args| + 1 && |args| >= 1 && lits[|lits| - 1] == ""
    ensures HasSuffix(Format(lits, args), args[|args| - 1])
  {
    if |args| == 1 {
      assert Format(lits[1..], args[1..]) == "";
    } else {
      FormatEndsWithLastArg(lits[1..], args[1..]);
    }
  }

  // ---------------------------------------------------------------------------
  // Error values
  // ---------------------------------------------------------------------------

  /** One cause listed in an API error body. */
  datatype ErrorCause = ErrorCause(summary: string) {
    /** ErrorCause.Error: the summary, verbatim. */
    function Error(): string {
      summary
    }
  }

  /** The fields json.Unmarshal fills from an API error body; all empty when the body does not decode. */
  datatype ErrorBody = ErrorBody(code: string, summary: string, link: string, id: string, causes: seq<ErrorCause>)

  const EmptyErrorBody: ErrorBody := ErrorBody("", "", "", "", [])

  /** ErrorResponse: the failed response and whatever its body decoded to. */
  datatype ErrorResponse = ErrorResponse(response: HttpResponse, body: ErrorBody)

  /** The Message field of a RateLimitError: empty, or the preemptive check's "still exceeded" text. */
  datatype RateLimitMessage = NoMessage | StillExceeded(limit: int, until: Timestamp)

  datatype RateLimitError = RateLimitError(rate: Rate, response: HttpResponse, message: RateLimitMessage)

  /** `%+v` of an ErrorCause value: its method set lacks Error(), so fmt prints the struct. */
  function CauseText(c: ErrorCause): string {
    "{Summary:" + c.summary + "}"
  }

  /** `%+v` of a []ErrorCause: the elements, space separated, in brackets. */
  function CausesText(causes: seq<ErrorCause>): string {
    "[" + CauseList(causes) + "]"
  }

  function CauseList(causes: seq<ErrorCause>): string {
    if |causes| == 0 then ""
    else if |causes| == 1 then CauseText(causes[0])
    else CauseText(causes[0]) + " " + CauseList(causes[1..])
  }

  /** The literal text of "%v %v: (%d) %s - %v - %s %+v". */
  const ErrorResponseLayout: seq<string> := ["", " ", ": (", ") ", " - ", " - ", " ", ""]

  /** The arguments of ErrorResponse.Error, in order: method, URL, status, code, summary, id, causes. */
  function ErrorResponseArgs(e: ErrorResponse): seq<string> {
    [e.response.verb.Name(), e.response.url, Itoa(e.response.statusCode),
     e.body.code, e.body.summary, e.body.id, CausesText(e.body.causes)]
  }

  /** ErrorResponse.Error */
  function ErrorResponseText(e: ErrorResponse): string {
    Format(ErrorResponseLayout, ErrorResponseArgs(e))
  }

  /**
   * The message of an ErrorResponse shows the method, the URL, the status code,
   * the code, the summary, the id and the causes, each verbatim and in that order.
   */
  lemma ErrorResponseTextInOrder(e: ErrorResponse, i: nat)
    requires i < 7
    ensures var r, args := ErrorResponseText(e), ErrorResponseArgs(e);
      var start := ArgStart(ErrorResponseLayout, args, i);
      && start + |args[i]| <= |r|
      && r[start..start + |args[i]|] == args[i]
      && (i < 6 ==> start + |args[i]| < ArgStart(ErrorResponseLayout, args, i + 1))
  {
    FormatPlacesArgs(ErrorResponseLayout, ErrorResponseArgs(e), i);
  }

  /** The rendering of the Message field; `%v` of a Timestamp is `showTime`, which this model does not define. */
  function MessageText(m: RateLimitMessage, showTime: Timestamp -> string): string {
    match m
    case NoMessage => ""
    case StillExceeded(limit, until) =>
      "API rate limit of " + Itoa(limit) + " still exceeded until " + showTime(until) + ", not making remote request."
  }

  /** The literal text of "%v %v: %d %v %v". */
  const RateLimitErrorLayout: seq<string> := ["", " ", ": ", " ", " ", ""]

  /**
   * The arguments of RateLimitError.Error at instant `now`, in order: method,
   * URL, status, message, and formatRateReset (as the code computes it) of the
   * time until the reset.
   */
  function RateLimitErrorArgs(e: RateLimitError, now: Timestamp, showTime: Timestamp -> string): seq<string> {
    [e.response.verb.Name(), e.response.url, Itoa(e.response.statusCode), MessageText(e.message, showTime),
     FormatRateResetAsWritten(Sub(e.rate.reset, now))]
  }

  /**
   * RateLimitError.Error at instant `now`. It ends with the reset text; away
   * from the most negative Duration that text is the corrected one.
   */
  function RateLimitErrorText(e: RateLimitError, now: Timestamp, showTime: Timestamp -> string): (r: string)
    ensures HasSuffix(r, FormatRateResetAsWritten(Sub(e.rate.reset, now)))
    ensures Sub(e.rate.reset, now) != MinInt64 ==> HasSuffix(r, FormatRateReset(Sub(e.rate.reset, now)))
  {
    var args := RateLimitErrorArgs(e, now, showTime);
    FormatEndsWithLastArg(RateLimitErrorLayout, args);
    AsWrittenAgreesOnDurations(Sub(e.rate.reset, now));
    Format(RateLimitErrorLayout, args)
  }

  /**
   * The message of a RateLimitError shows the method, the URL, the status
   * code, the message and the reset text, each verbatim and in that order.
   */
  lemma RateLimitErrorTextInOrder(e: RateLimitError, now: Timestamp, showTime: Timestamp -> string, i: nat)
    requires i < 5
    ensures var r, args := RateLimitErrorText(e, now, showTime), RateLimitErrorArgs(e, now, showTime);
      var start := ArgStart(RateLimitErrorLayout, args, i);
      && start + |args[i]| <= |r|
      && r[start..start + |args[i]|] == args[i]
      && (i < 4 ==> start + |args[i]| < ArgStart(RateLimitErrorLayout, args, i + 1))
  {
    FormatPlacesArgs(RateLimitErrorLayout, RateLimitErrorArgs(e, now, showTime), i);
  }

  // ---------------------------------------------------------------------------
  // formatRateReset
  // ---------------------------------------------------------------------------

  function Abs(d: int): nat {
    if d < 0 then -d else d
  }

  /** The whole seconds nearest to |d| nanoseconds, halves rounding up. */
  function RoundedSeconds(d: int): (total: nat)
    ensures total * NanosPerSecond - NanosPerSecond / 2 <= Abs(d) < total * NanosPerSecond + NanosPerSecond / 2
  {
    (Abs(d) + 500_000_000) / 1_000_000_000
  }

  /** "<m>m<ss>s" for a minute or more, "<s>s" below that. */
  function TimeText(total: nat): string {
    var minutes := total / 60;
    var seconds := total - minutes * 60;
    if minutes > 0 then NatText(minutes) + "m" + ZeroPad2(seconds) + "s"
    else NatText(seconds) + "s"
  }

  /** The time text is digits, `m` and `s` only, and it holds an `m` exactly when there is a whole minute. */
  lemma TimeTextShape(total: nat)
    ensures var t := TimeText(total);
      && (forall i :: 0 <= i < |t| ==> IsDigit(t[i]) || t[i] == 'm' || t[i] == 's')
      && ('m' in t <==> total >= 60)
  {
    var minutes := total / 60;
    var seconds := total - minutes * 60;
    var t := TimeText(total);
    if minutes > 0 {
      var m := NatText(minutes);
      ZeroPad2Digits(seconds);
      assert t == m + "m" + ZeroPad2(seconds) + "s";
      assert t[|m|] == 'm';
    } else {
      var d := NatText(seconds);
      assert t == d + "s";
      forall i | 0 <= i < |t| ensures t[i] != 'm' && (IsDigit(t[i]) || t[i] == 's') {
        if i < |t| - 1 { assert IsDigit(d[i]); }
      }
    }
  }

  /** formatRateReset: the time until the limit resets, or since it did when `d` is negative. */
  function FormatRateReset(d: int): (r: string)
    ensures d < 0 ==> exists t :: ParseTimeText(t) == Some(RoundedSeconds(d)) && r == "[rate limit was reset " + t + " ago]"
    ensures d >= 0 ==> exists t :: ParseTimeText(t) == Some(RoundedSeconds(d)) && r == "[rate reset in " + t + "]"
  {
    var t := TimeText(RoundedSeconds(d));
    TimeTextRoundTrip(RoundedSeconds(d));
    if d < 0 then "[rate limit was reset " + t + " ago]" else "[rate reset in " + t + "]"
  }

  /**
   * Reads a time text back to a number of seconds, accepting only the two
   * shapes formatRateReset writes: "<s>s" below a minute, and "<m>m<ss>s" with
   * at least one minute and two-digit seconds below 60, with no leading zeros.
   */
  function ParseTimeText(t: string): Option<nat> {
    if |t| == 0 || t[|t| - 1] != 's' then None
    else
      var parts := Split(t[..|t| - 1], 'm');
      if |parts| == 1 && Canonical(parts[0]) && DecimalValue(parts[0]) < 60 then
        Some(DecimalValue(parts[0]))
      else if && |parts| == 2 && Canonical(parts[0]) && DecimalValue(parts[0]) > 0
              && |parts[1]| == 2 && AllDigits(parts[1]) && DecimalValue(parts[1]) < 60 then
        Some(60 * DecimalValue(parts[0]) + DecimalValue(parts[1]))
      else None
  }

  /** Only the time text of a number reads back as that number: the text is determined by the value. */
  lemma ParseTimeTextCanonical(t: string)
    requires ParseTimeText(t).Some?
    ensures t == TimeText(ParseTimeText(t).value)
  {
    var body := t[..|t| - 1];
    var parts := Split(body, 'm');
    var v := ParseTimeText(t).value;
    SplitJoinsBack(body, 'm');
    assert t == body + "s";
    if |parts| == 1 && Canonical(parts[0]) && DecimalValue(parts[0]) < 60 {
      assert body == parts[0] && v == DecimalValue(parts[0]);
      SecondsTextCanonical(parts[0]);
    } else {
      var minutes, seconds := DecimalValue(parts[0]), DecimalValue(parts[1]);
      assert body == parts[0] + "m" + parts[1] && v == 60 * minutes + seconds;
      MinutesTextCanonical(parts[0], parts[1], minutes, seconds);
      assert TimeText(v) == body + "s";
    }
  }

  lemma SecondsTextCanonical(d: string)
    requires Canonical(d) && DecimalValue(d) < 60
    ensures TimeText(DecimalValue(d)) == d + "s"
  {
    var seconds := DecimalValue(d);
    assert seconds / 60 == 0;
    CanonicalNatText(d);
    assert TimeText(seconds) == NatText(seconds) + "s";
  }

  lemma MinutesTextCanonical(m: string, ss: string, minutes: nat, seconds: nat)
    requires Canonical(m) && minutes == DecimalValue(m) && minutes > 0
    requires |ss| == 2 && AllDigits(ss) && seconds == DecimalValue(ss) && seconds < 60
    ensures TimeText(60 * minutes + seconds) == m + "m" + ss + "s"
  {
    TimeTextOfMinutes(minutes, seconds);
    CanonicalNatText(m);
    TwoDigitsArePadded(ss);
  }

  /** A minute or more splits into the minutes and the seconds left over. */
  lemma TimeTextOfMinutes(minutes: nat, seconds: nat)
    requires minutes > 0 && seconds < 60
    ensures TimeText(60 * minutes + seconds) == NatText(minutes) + "m" + ZeroPad2(seconds) + "s"
  {
    var total := 60 * minutes + seconds;
    MinutesAndSeconds(minutes, seconds);
    var mm, sec := total / 60, total - total / 60 * 60;
    assert mm == minutes && sec == seconds;
    assert TimeText(total) == NatText(mm) + "m" + ZeroPad2(sec) + "s";
  }

  lemma MinutesAndSeconds(minutes: nat, seconds: nat)
    requires seconds < 60
    ensures (60 * minutes + seconds) / 60 == minutes
    ensures 60 * minutes + seconds - (60 * minutes + seconds) / 60 * 60 == seconds
  {
  }

  /** Two digits below 60 are the %02d text of their value. */
  lemma TwoDigitsArePadded(d: string)
    requires |d| == 2 && AllDigits(d) && DecimalValue(d) < 60
    ensures ZeroPad2(DecimalValue(d)) == d
  {
    assert d[..1] == [d[0]];
    assert DecimalValue(d) == DigitValue(d[0]) * 10 + DigitValue(d[1]);
    if d[0] == '0' {
      assert DigitChar(DigitValue(d[1])) == d[1];
      assert d == ['0', d[1]];
    } else {
      CanonicalNatText(d);
    }
  }

  /** The time text determines the number of seconds it was made from. */
  lemma TimeTextRoundTrip(total: nat)
    ensures ParseTimeText(TimeText(total)) == Some(total)
  {
    var minutes := total / 60;
    var seconds := total - minutes * 60;
    if minutes > 0 {
      MinutesTextRoundTrip(minutes, seconds);
    } else {
      assert TimeText(total) == NatText(seconds) + "s";
      SecondsTextRoundTrip(seconds);
    }
  }

  lemma SecondsTextRoundTrip(seconds: nat)
    requires seconds < 60
    ensures ParseTimeText(NatText(seconds) + "s") == Some(seconds)
  {
    var t := NatText(seconds) + "s";
    assert t[..|t| - 1] == NatText(seconds);
    SplitNoSeparator(NatText(seconds), 'm');
    assert Canonical(NatText(seconds));
  }

  lemma MinutesTextRoundTrip(minutes: nat, seconds: nat)
    requires minutes > 0 && seconds < 60
    ensures ParseTimeText(NatText(minutes) + "m" + ZeroPad2(seconds) + "s") == Some(60 * minutes + seconds)
  {
    var m := NatText(minutes);
    var ss := ZeroPad2(seconds);
    var t := m + "m" + ss + "s";
    ZeroPad2Digits(seconds);
    assert t[..|t| - 1] == m + ['m'] + ss;
    SplitAfterPiece(m, ss, 'm');
    SplitNoSeparator(ss, 'm');
    assert Canonical(m);
  }

  /** %02d of a number of seconds is two digits that read back as that number. */
  lemma ZeroPad2Digits(seconds: nat)
    requires seconds < 60
    ensures |ZeroPad2(seconds)| == 2 && AllDigits(ZeroPad2(seconds)) && DecimalValue(ZeroPad2(seconds)) == seconds
  {
    var ss := ZeroPad2(seconds);
    if seconds < 10 {
      assert ss == ['0', DigitChar(seconds)];
      assert ss[..1] == ['0'];
    } else {
      assert ss == NatText(seconds);
      assert NatText(seconds) == NatText(seconds / 10) + [DigitChar(seconds % 10)];
    }
  }

  /** The message names the sign of `d` by its wrapper, and a zero duration counts as "reset in". */
  lemma FormatRateResetWrapper(d: int)
    ensures HasPrefix(FormatRateReset(d), "[rate limit was reset ") <==> d < 0
    ensures HasPrefix(FormatRateReset(d), "[rate reset in ") <==> d >= 0
  {
    if d < 0 {
      PastWrapper(TimeText(RoundedSeconds(d)));
    } else {
      FutureWrapper(TimeText(RoundedSeconds(d)));
    }
  }

  lemma PastWrapper(t: string)
    ensures HasPrefix("[rate limit was reset " + t + " ago]", "[rate limit was reset ")
    ensures !HasPrefix("[rate limit was reset " + t + " ago]", "[rate reset in ")
  {
    var r := "[rate limit was reset " + t + " ago]";
    assert r[..22] == "[rate limit was reset ";
    assert r[6] == 'l';
  }

  lemma FutureWrapper(t: string)
    ensures HasPrefix("[rate reset in " + t + "]", "[rate reset in ")
    ensures !HasPrefix("[rate reset in " + t + "]", "[rate limit was reset ")
  {
    var r := "[rate reset in " + t + "]";
    assert r[..15] == "[rate reset in ";
    assert r[6] == 'r';
  }

  /** A duration and its negation render the same time text inside different wrappers. */
  lemma FormatRateResetSymmetric(d: int)
    requires d < 0
    ensures exists t ::
      && FormatRateReset(d) == "[rate limit was reset " + t + " ago]"
      && FormatRateReset(-d) == "[rate reset in " + t + "]"
  {
    var t := TimeText(RoundedSeconds(d));
    assert RoundedSeconds(-d) == RoundedSeconds(d);
    assert FormatRateReset(-d) == "[rate reset in " + t + "]";
  }

  // ---------------------------------------------------------------------------
  // formatRateReset as written, on int64 durations
  // ---------------------------------------------------------------------------

  /** Go's integer division (and float-to-int conversion): truncation toward zero. */
  function TruncDiv(a: int, b: int): int
    requires b > 0
  {
    if a >= 0 then a / b else -((-a) / b)
  }

  /** Two's-complement wrap-around of an int64 result. */
  function Wrap64(x: int): int {
    (x - MinInt64) % 0x1_0000_0000_0000_0000 + MinInt64
  }

  /** int(0.5 + d.Seconds()) after `d *= -1`: the negation wraps around at the most negative duration. */
  function SecondsTotalAsWritten(d: int): int
    requires InInt64(d)
  {
    var magnitude := if d < 0 then Wrap64(-d) else d;
    TruncDiv(magnitude + 500_000_000, 1_000_000_000)
  }

  /** The minutes/seconds text of formatRateReset on a possibly negative total, dividing as Go does. */
  function TimeStringAsWritten(secondsTotal: int): string {
    var minutes := TruncDiv(secondsTotal, 60);
    var seconds := secondsTotal - minutes * 60;
    if minutes > 0 then Itoa(minutes) + "m" + ZeroPad2(seconds) + "s" else Itoa(seconds) + "s"
  }

  /**
   * formatRateReset exactly as the code computes it on a time.Duration: `d *= -1`
   * wraps around at the most negative duration, and the rounded seconds and the
   * minute split truncate toward zero.
   */
  function FormatRateResetAsWritten(d: int): string
    requires InInt64(d)
  {
    var timeString := TimeStringAsWritten(SecondsTotalAsWritten(d));
    if d < 0 then "[rate limit was reset " + timeString + " ago]" else "[rate reset in " + timeString + "]"
  }

  /** Away from the most negative duration, the code computes FormatRateReset. */
  lemma AsWrittenAgrees(d: int)
    requires MinInt64 < d <= MaxInt64
    ensures FormatRateResetAsWritten(d) == FormatRateReset(d)
  {
    SecondsAgree(d);
    TimeStringAgrees(RoundedSeconds(d));
  }

  lemma AsWrittenAgreesOnDurations(d: int)
    requires InInt64(d)
    ensures d != MinInt64 ==> FormatRateResetAsWritten(d) == FormatRateReset(d)
  {
    if d != MinInt64 {
      AsWrittenAgrees(d);
    }
  }

  lemma SecondsAgree(d: int)
    requires MinInt64 < d <= MaxInt64
    ensures SecondsTotalAsWritten(d) == RoundedSeconds(d)
  {
    var magnitude := if d < 0 then Wrap64(-d) else d;
    assert magnitude == Abs(d);
  }

  lemma TimeStringAgrees(total: nat)
    ensures TimeStringAsWritten(total) == TimeText(total)
  {
    assert TruncDiv(total, 60) == total / 60;
    if total / 60 > 0 {
      assert Itoa(total / 60) == NatText(total / 60);
    }
    assert Itoa(total - total / 60 * 60) == NatText(total - total / 60 * 60);
  }

  /** At the most negative duration the negation overflows and the text shows negative seconds. */
  lemma AsWrittenMinDuration()
    ensures FormatRateResetAsWritten(MinInt64) == "[rate limit was reset -16s ago]"
  {
    MinDurationSecondsTotal();
    MinDurationTimeString();
  }

  lemma MinDurationSecondsTotal()
    ensures SecondsTotalAsWritten(MinInt64) == -9_223_372_036
  {
    var magnitude := Wrap64(-MinInt64);
    assert magnitude == MinInt64 by {
      assert -MinInt64 - MinInt64 == 0x1_0000_0000_0000_0000;
    }
    assert -(magnitude + 500_000_000) == 9_223_372_036_354_775_808;
    assert 9_223_372_036_354_775_808 / 1_000_000_000 == 9_223_372_036;
  }

  lemma MinDurationTimeString()
    ensures TimeStringAsWritten(-9_223_372_036) == "-16s"
  {
    var minutes := TruncDiv(-9_223_372_036, 60);
    assert 9_223_372_036 / 60 == 153_722_867;
    assert minutes == -153_722_867;
    assert -9_223_372_036 - minutes * 60 == -16;
    assert NatText(16) == "16" by {
      assert NatText(16) == NatText(1) + [DigitChar(6)];
    }
  }

  /**
   * A rate whose reset is the zero time (no reset header was received) is about
   * two thousand years in the past, beyond the range of a Duration: Sub saturates
   * to the most negative duration, which the code renders with negative seconds.
   */
  /** The message of a rate-limit error whose stored reset is the zero time, read at any instant after 1970. */
  lemma ZeroResetMessage(e: RateLimitError, now: Timestamp, showTime: Timestamp -> string)
    requires e.rate.reset == ZeroTime && now.unixNano >= 0
    ensures HasSuffix(RateLimitErrorText(e, now, showTime), "[rate limit was reset -16s ago]")
  {
    ZeroResetRendersNegativeSeconds(now);
  }

  lemma ZeroResetRendersNegativeSeconds(now: Timestamp)
    requires now.unixNano >= 0
    ensures Sub(ZeroTime, now) == MinInt64
    ensures FormatRateResetAsWritten(Sub(ZeroTime, now)) == "[rate limit was reset -16s ago]"
  {
    assert ZeroTime.unixNano == -62_135_596_800_000_000_000;
    AsWrittenMinDuration();
  }

}
