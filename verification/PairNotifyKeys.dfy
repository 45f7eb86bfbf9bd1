/** Which targets of the notifier share a subscriber key (extensions/device-pair/notify.ts). */
module PairNotifyKeys {
  import opened JsText
  import opened Numerals
  import opened PairNotify
  import opened PairNotifyCommands
  import opened Sequences

  function AccountText(t: Target): Text { if t.account.Some? then t.account.value else [] }

  function Printed(thread: Thread): Text {
    match thread case NoThread => [] case ThreadText(t) => t case ThreadNumber(n) => Decimal(n)
  }

  /** The key after the first bar. */
  function Rest(t: Target): Text { AccountText(t) + [BAR] + Printed(t.thread) }

  lemma KeyIsJoined(t: Target)
    ensures TargetKey(t) == t.to + [BAR] + Rest(t)
  {
    hide Decimal;
  }

  /** Threads print alike when they are equal, one is a number and the other its numeral, or one is absent
      and the other empty text. */
  predicate PrintAlike(a: Thread, b: Thread) {
    || a == b
    || (a.ThreadNumber? && b == ThreadText(Decimal(a.number)))
    || (b.ThreadNumber? && a == ThreadText(Decimal(b.number)))
    || (a.NoThread? && b == ThreadText([]))
    || (b.NoThread? && a == ThreadText([]))
  }

  lemma PrintAlikeExactly(a: Thread, b: Thread)
    ensures Printed(a) == Printed(b) <==> PrintAlike(a, b)
  {
    if a.ThreadNumber? { DecimalMeans(a.number); }
    if b.ThreadNumber? { DecimalMeans(b.number); }
    if a.ThreadNumber? && b.ThreadNumber? { DecimalIsInjective(a.number, b.number); }
    hide Decimal;
  }

  /** The parts after the first bar are alike: same account, an absent one counting as empty, and threads
      that print alike; or one account overhangs the other and a bar. */
  predicate RestAlike(a: Target, b: Target) {
    || (AccountText(a) == AccountText(b) && PrintAlike(a.thread, b.thread))
    || Overhangs(AccountText(a), Printed(a.thread), AccountText(b), Printed(b.thread), BAR)
    || Overhangs(AccountText(b), Printed(b.thread), AccountText(a), Printed(a.thread), BAR)
  }

  /** Any two targets share a key exactly when their recipients are equal and the rest is alike, or one
      recipient overhangs the other and a bar. */
  lemma KeysCollideExactly(a: Target, b: Target)
    ensures TargetKey(a) == TargetKey(b)
       <==> || (a.to == b.to && RestAlike(a, b))
            || Overhangs(a.to, Rest(a), b.to, Rest(b), BAR)
            || Overhangs(b.to, Rest(b), a.to, Rest(a), BAR)
  {
    hide Overhangs, TargetKey, AccountText, Printed, PrintAlike;
    KeyIsJoined(a);
    KeyIsJoined(b);
    JoinedAlikeExactly(a.to, Rest(a), b.to, Rest(b), BAR);
    JoinedAlikeExactly(AccountText(a), Printed(a.thread), AccountText(b), Printed(b.thread), BAR);
    PrintAlikeExactly(a.thread, b.thread);
  }

  predicate BarFree(t: Target) { BAR !in t.to && BAR !in AccountText(t) }

  /** Without bars in recipients and accounts, the key determines both, and the thread as it prints. */
  lemma KeyDeterminesTarget(a: Target, b: Target)
    requires BarFree(a) && BarFree(b)
    ensures TargetKey(a) == TargetKey(b)
       <==> a.to == b.to && AccountText(a) == AccountText(b) && PrintAlike(a.thread, b.thread)
  {
    hide TargetKey, AccountText, Printed, PrintAlike;
    KeyIsJoined(a);
    KeyIsJoined(b);
    JoinedAlikeWithoutSeparator(a.to, Rest(a), b.to, Rest(b), BAR);
    JoinedAlikeWithoutSeparator(AccountText(a), Printed(a.thread), AccountText(b), Printed(b.thread), BAR);
    PrintAlikeExactly(a.thread, b.thread);
  }

  /** A thread given as a number and one given as its numeral share a key, and so do an account and a thread
      split at different bars. */
  lemma DifferentTargetsShareKeys(to: Text, x: Text, y: Text, z: Text, n: int)
    ensures var a, b := Target(to, Some(x), ThreadNumber(n)), Target(to, Some(x), ThreadText(Decimal(n)));
            a != b && TargetKey(a) == TargetKey(b)
    ensures var a, b := Target(to, Some(x + [BAR] + y), ThreadText(z)), Target(to, Some(x), ThreadText(y + [BAR] + z));
            a != b && TargetKey(a) == TargetKey(b)
  {
    hide Decimal;
    assert |x + [BAR] + y| != |x|;
    assert to + [BAR] + (x + [BAR] + y) + [BAR] + z == to + [BAR] + x + [BAR] + (y + [BAR] + z);
  }
}
