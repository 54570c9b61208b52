/** The status `list_keys` derives for the one service whose tokens expire:
    an Ollama token is valid for 90 days from its stored timestamp. The
    status is computed from the stored record and the current time and is
    never written back. Colour escapes are not modelled; the texts are the
    bracketed labels alone. */
module Expiry {
  import opened Wrappers
  import opened Text

  /** The only service with an expiry window. */
  const ExpiringService: string := "ollama"
  /** Days a token stays valid after it was stored. */
  const WindowDays: int := 90
  /** Days before expiry from which the status warns. */
  const WarningDays: int := 5
  const SecondsPerDay: int := 86400

  datatype Status =
    | NoStatus           // any other service, or an Ollama slot with no key and no timestamp
    | Expired            // [EXPIRED]
    | ExpiresIn(days: int) // [Expires in d days]
    | ValidFor(days: int)  // [Valid for d days]
    | UnknownStatus      // [Unknown status]: the timestamp lies in the future
    | TokenSetNoExpiry   // [Token set (no expiration info)]

  /** Python's truth value of the `timestamp` column: NULL and 0 are both false. */
  predicate HasTimestamp(ts: Option<int>) {
    ts.Some? && ts.value != 0
  }

  /** `(datetime.now() - datetime.fromtimestamp(ts)).days` on whole seconds:
      the number of whole days elapsed, rounded toward minus infinity. */
  function DaysSince(ts: int, now: int): (d: int)
    ensures d * SecondsPerDay <= now - ts < (d + 1) * SecondsPerDay
  {
    (now - ts) / SecondsPerDay
  }

  /** `90 - days_since_update`: the whole days left in the window, so that
      between `90 - r` and `91 - r` days' worth of seconds have elapsed. */
  function DaysRemaining(ts: int, now: int): (r: int)
    ensures (WindowDays - r) * SecondsPerDay <= now - ts < (WindowDays - r + 1) * SecondsPerDay
  {
    WindowDays - DaysSince(ts, now)
  }

  /** The case split of `list_keys` for one record. */
  function ExpiryStatus(service: string, key: string, ts: Option<int>, now: int): (st: Status)
    ensures service != ExpiringService ==> st == NoStatus
    ensures st == TokenSetNoExpiry <==> service == ExpiringService && !HasTimestamp(ts) && key != ""
    ensures st == NoStatus <==> service != ExpiringService || (!HasTimestamp(ts) && key == "")
    ensures st.ExpiresIn? ==> 1 <= st.days <= WarningDays
    ensures st.ValidFor? ==> WarningDays < st.days <= WindowDays
    ensures st.ExpiresIn? || st.ValidFor? ==> HasTimestamp(ts) && st.days == DaysRemaining(ts.value, now)
    ensures st == Expired <==> service == ExpiringService && HasTimestamp(ts) && DaysRemaining(ts.value, now) <= 0
    ensures st == UnknownStatus <==> service == ExpiringService && HasTimestamp(ts) && DaysRemaining(ts.value, now) > WindowDays
  {
    if service == ExpiringService && HasTimestamp(ts) then
      var d := DaysRemaining(ts.value, now);
      if d <= 0 then Expired
      else if d <= WarningDays then ExpiresIn(d)
      else if d <= WindowDays then ValidFor(d)
      else UnknownStatus
    else if service == ExpiringService && key != "" then TokenSetNoExpiry
    else NoStatus
  }

  /** The same case split stated on elapsed seconds instead of days: expired
      from exactly 90 days on, warning during the five days before that,
      valid from the moment of storing, unknown for a future timestamp. */
  lemma {:induction false} ExpiryBySeconds(key: string, ts: int, now: int)
    requires ts != 0
    ensures var st := ExpiryStatus(ExpiringService, key, Some(ts), now);
            && (st == Expired <==> now - ts >= WindowDays * SecondsPerDay)
            && (st.ExpiresIn? <==> (WindowDays - WarningDays) * SecondsPerDay <= now - ts < WindowDays * SecondsPerDay)
            && (st.ValidFor? <==> 0 <= now - ts < (WindowDays - WarningDays) * SecondsPerDay)
            && (st == UnknownStatus <==> now - ts < 0)
            && (st.ExpiresIn? || st.ValidFor? ==>
                  (WindowDays - st.days) * SecondsPerDay <= now - ts < (WindowDays - st.days + 1) * SecondsPerDay)
  {
    DaysAtLeast(ts, now, WindowDays);
    DaysAtLeast(ts, now, WindowDays - WarningDays);
    DaysAtLeast(ts, now, 0);
  }

  /** At least `k` whole days have elapsed exactly when at least `k` days'
      worth of seconds have. */
  lemma DaysAtLeast(ts: int, now: int, k: int)
    ensures DaysSince(ts, now) >= k <==> now - ts >= k * SecondsPerDay
  {
    var d := DaysSince(ts, now);
    if d >= k {
      assert d * SecondsPerDay >= k * SecondsPerDay;
    } else {
      assert (d + 1) * SecondsPerDay <= k * SecondsPerDay;
    }
  }

  /** A stored timestamp of 0 is false in Python, so it reads as no
      timestamp at all. */
  lemma {:induction false} ZeroTimestampIsMissing(service: string, key: string, now: int)
    ensures ExpiryStatus(service, key, Some(0), now) == ExpiryStatus(service, key, None, now)
    ensures ExpiryStatus(ExpiringService, key, Some(0), now) == (if key == "" then NoStatus else TokenSetNoExpiry)
  {
  }

  /** How far a status is along the way to expiry. */
  function Urgency(st: Status): nat {
    match st
    case UnknownStatus => 0
    case ValidFor(_) => 1
    case ExpiresIn(_) => 2
    case Expired => 3
    case _ => 0
  }

  /** As time passes a token's remaining days never grow and its status only
      moves toward Expired. */
  lemma {:induction false} ExpiryMonotone(key: string, ts: int, now1: int, now2: int)
    requires ts != 0 && now1 <= now2
    ensures DaysRemaining(ts, now2) <= DaysRemaining(ts, now1)
    ensures Urgency(ExpiryStatus(ExpiringService, key, Some(ts), now1))
         <= Urgency(ExpiryStatus(ExpiringService, key, Some(ts), now2))
  {
  }

  /** Boundary cases of the 90-day window: stored exactly 90 days
      ago is expired, 86 days ago warns with 4 days left, a day ago is valid
      for 89 more, a day in the future is unknown. */
  lemma {:induction false} ExpiryExamples(key: string, now: int)
    requires now > WindowDays * SecondsPerDay
    ensures ExpiryStatus(ExpiringService, key, Some(now - 90 * SecondsPerDay), now) == Expired
    ensures ExpiryStatus(ExpiringService, key, Some(now - 86 * SecondsPerDay), now) == ExpiresIn(4)
    ensures ExpiryStatus(ExpiringService, key, Some(now - SecondsPerDay), now) == ValidFor(89)
    ensures ExpiryStatus(ExpiringService, key, Some(now + SecondsPerDay), now) == UnknownStatus
  {
    assert DaysSince(now - 90 * SecondsPerDay, now) == 90;
    assert DaysSince(now - 86 * SecondsPerDay, now) == 86;
    assert DaysSince(now - SecondsPerDay, now) == 1;
    assert DaysSince(now + SecondsPerDay, now) == -1;
  }

  /** An integer as an f-string renders it. */
  function IntText(n: int): string {
    if n >= 0 then Decimal(n) else "-" + Decimal(-n)
  }

  /** The bracketed label printed for a status, with its leading space. A
      label is empty exactly for NoStatus, and otherwise starts with " ["
      and ends with "]". */
  function StatusText(st: Status): (t: string)
    ensures t == "" <==> st == NoStatus
    ensures t != "" ==> |t| >= 3 && t[..2] == " [" && t[|t| - 1] == ']'
  {
    match st
    case NoStatus => ""
    case Expired => " [EXPIRED]"
    case ExpiresIn(d) => " [Expires in " + IntText(d) + " days]"
    case ValidFor(d) => " [Valid for " + IntText(d) + " days]"
    case UnknownStatus => " [Unknown status]"
    case TokenSetNoExpiry => " [Token set (no expiration info)]"
  }

  /** `f" ({model})" if model else ""`: NULL and the empty model show
      nothing; any other model is shown whole, in parentheses. */
  function ModelInfo(model: Option<string>): (m: string)
    ensures m == "" <==> model.None? || model.value == ""
    ensures m != "" ==> |m| == |model.value| + 3 && m[..2] == " (" && m[2..|m| - 1] == model.value && m[|m| - 1] == ')'
  {
    if model.Some? && model.value != "" then " (" + model.value + ")" else ""
  }

  /** The annotation `list_keys` pairs with each record. */
  function Annotation(service: string, key: string, ts: Option<int>, model: Option<string>, now: int): string {
    StatusText(ExpiryStatus(service, key, ts, now)) + ModelInfo(model)
  }

  /** The annotation ends in ')' exactly when a model is shown, and then its
      tail is the model in parentheses: the model suffix can always be told
      apart from the status label. */
  lemma {:induction false} AnnotationShowsModel(service: string, key: string, ts: Option<int>, model: Option<string>, now: int)
    ensures var a := Annotation(service, key, ts, model, now);
            && (a != "" && a[|a| - 1] == ')' <==> model.Some? && model.value != "")
            && (model.Some? && model.value != "" ==>
                  |a| >= |model.value| + 3 && a[|a| - |model.value| - 3..] == " (" + model.value + ")")
  {
    var st := ExpiryStatus(service, key, ts, now);
    var t, m := StatusText(st), ModelInfo(model);
    assert Annotation(service, key, ts, model, now) == t + m;
    if m == "" {
      assert t + m == t;
    } else {
      assert (t + m)[|t + m| - 1] == m[|m| - 1];
      assert (t + m)[|t + m| - |m|..] == m;
    }
  }

  /** The rendered label determines the status: no two statuses with
      non-negative day counts print the same text. */
  lemma {:induction false} StatusTextInjective(a: Status, b: Status)
    requires (a.ExpiresIn? || a.ValidFor? ==> a.days >= 0) && (b.ExpiresIn? || b.ValidFor? ==> b.days >= 0)
    requires StatusText(a) == StatusText(b)
    ensures a == b
  {
    var t := StatusText(a);
    if a.ExpiresIn? || a.ValidFor? || b.ExpiresIn? || b.ValidFor? {
      assert t[2] == StatusText(b)[2];
      assert t[3] == StatusText(b)[3];
      if a.ExpiresIn? && b.ExpiresIn? {
        DaysFromText(" [Expires in ", a.days, b.days);
      } else if a.ValidFor? && b.ValidFor? {
        DaysFromText(" [Valid for ", a.days, b.days);
      }
    } else {
      assert |t| == |StatusText(b)|;
    }
  }

  /** Equal labels with the same prefix carry the same day count. */
  lemma {:induction false} DaysFromText(prefix: string, d1: nat, d2: nat)
    requires prefix + Decimal(d1) + " days]" == prefix + Decimal(d2) + " days]"
    ensures d1 == d2
  {
    var t1, t2 := prefix + Decimal(d1) + " days]", prefix + Decimal(d2) + " days]";
    assert |Decimal(d1)| == |Decimal(d2)|;
    assert Decimal(d1) == t1[|prefix|..|prefix| + |Decimal(d1)|];
    assert Decimal(d2) == t2[|prefix|..|prefix| + |Decimal(d2)|];
    DecimalValue(d1);
    DecimalValue(d2);
  }
}
