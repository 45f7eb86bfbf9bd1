/** Rewriting Claude CLI permission arguments (extensions/anthropic/cli-shared.ts). */
module ClaudeArgs {

  const LEGACY_SKIP_ARG := "--dangerously-skip-permissions"
  const MODE_ARG := "--permission-mode"
  const BYPASS_MODE := "bypassPermissions"

  predicate IsLegacy(arg: string) { arg == LEGACY_SKIP_ARG }

  predicate IsMode(arg: string) { arg == MODE_ARG }

  predicate IsModeAssignment(arg: string) { MODE_ARG + "=" <= arg }

  // ---- what an argument list means -------------------------------------------------------------

  /** An argument list as the options it spells: an argument right after the mode option is that
      option's value, whatever it looks like. */
  datatype Token = Legacy | Mode(value: string) | ModeWithoutValue | Assignment(arg: string) | Other(arg: string)

  function Parse(args: seq<string>): seq<Token> {
    if args == [] then []
    else if IsLegacy(args[0]) then [Legacy] + Parse(args[1..])
    else if IsMode(args[0]) then
      if |args| == 1 then [ModeWithoutValue] else [Mode(args[1])] + Parse(args[2..])
    else if IsModeAssignment(args[0]) then [Assignment(args[0])] + Parse(args[1..])
    else [Other(args[0])] + Parse(args[1..])
  }

  function Render(tokens: seq<Token>): seq<string> {
    if tokens == [] then []
    else
      (match tokens[0]
       case Legacy => [LEGACY_SKIP_ARG]
       case Mode(v) => [MODE_ARG, v]
       case ModeWithoutValue => [MODE_ARG]
       case Assignment(a) => [a]
       case Other(a) => [a]) + Render(tokens[1..])
  }

  predicate SetsMode(t: Token) { t.Mode? || t.ModeWithoutValue? || t.Assignment? }

  predicate HasMode(tokens: seq<Token>) { exists t :: t in tokens && SetsMode(t) }

  predicate HasLegacy(tokens: seq<Token>) { Legacy in tokens }

  function WithoutLegacy(tokens: seq<Token>): seq<Token> {
    if tokens == [] then []
    else if tokens[0].Legacy? then WithoutLegacy(tokens[1..])
    else [tokens[0]] + WithoutLegacy(tokens[1..])
  }

  /** The options after the rewrite. */
  function Rewritten(tokens: seq<Token>): seq<Token> {
    WithoutLegacy(tokens) + if HasLegacy(tokens) && !HasMode(tokens) then [Mode(BYPASS_MODE)] else []
  }

  /** Token sequences that argument lists spell: only the last mode may lack its value. */
  predicate Spelled(tokens: seq<Token>) {
    forall i :: 0 <= i < |tokens| ==>
      && (tokens[i].ModeWithoutValue? ==> i == |tokens| - 1)
      && (tokens[i].Assignment? ==> IsModeAssignment(tokens[i].arg))
      && (tokens[i].Other? ==> !IsLegacy(tokens[i].arg) && !IsMode(tokens[i].arg) && !IsModeAssignment(tokens[i].arg))
  }

  lemma NotBoth()
    ensures !IsMode(LEGACY_SKIP_ARG) && !IsLegacy(MODE_ARG)
    ensures forall a :: IsModeAssignment(a) ==> !IsLegacy(a) && !IsMode(a)
  {
    assert LEGACY_SKIP_ARG[2] == 'd' && MODE_ARG[2] == 'p';
    assert |MODE_ARG| == 17 && (MODE_ARG + "=")[2] == 'p';
  }

  /** The first option an argument list spells, and how many arguments it takes. */
  function First(args: seq<string>): (Token, nat)
    requires args != []
  {
    if IsLegacy(args[0]) then (Legacy, 1)
    else if IsMode(args[0]) then if |args| == 1 then (ModeWithoutValue, 1) else (Mode(args[1]), 2)
    else if IsModeAssignment(args[0]) then (Assignment(args[0]), 1)
    else (Other(args[0]), 1)
  }

  lemma ParseFirst(args: seq<string>)
    requires args != []
    ensures First(args).1 <= |args| && Parse(args) == [First(args).0] + Parse(args[First(args).1..])
  {
    hide IsLegacy, IsMode, IsModeAssignment;
    assert |args| == 1 ==> args[1..] == [] && [ModeWithoutValue] + [] == [ModeWithoutValue];
  }

  lemma RenderFirst(args: seq<string>)
    requires args != []
    ensures First(args).1 <= |args| && Render([First(args).0]) == args[..First(args).1]
    ensures First(args).0.ModeWithoutValue? ==> |args| == 1
    ensures Spelled([First(args).0])
  {
    Meaning(args[0]);
    RenderOne(First(args).0);
    hide IsLegacy, IsMode, IsModeAssignment, Render;
  }

  lemma SpelledCons(t: Token, rest: seq<Token>)
    requires Spelled([t]) && Spelled(rest) && (t.ModeWithoutValue? ==> rest == [])
    ensures Spelled([t] + rest)
  {
    hide IsLegacy, IsMode, IsModeAssignment;
    var all := [t] + rest;
    assert [t][0] == t && forall i :: 0 < i < |all| ==> all[i] == rest[i - 1];
  }

  lemma NothingSpelled()
    ensures Render(Parse([])) == [] && Spelled(Parse([])) && Parse([]) == []
  {
  }

  /** Reading an argument list as options loses nothing. */
  lemma {:induction false} RenderParse(args: seq<string>)
    ensures Render(Parse(args)) == args && Spelled(Parse(args))
    decreases |args|
  {
    hide *;
    NothingSpelled();
    if args != [] {
      FirstTakesOne(args);
      ParseFirst(args);
      RenderFirst(args);
      var t, rest := First(args).0, args[First(args).1..];
      RenderParse(rest);
      RenderConcat([t], Parse(rest));
      SpelledCons(t, Parse(rest));
      assert args[..First(args).1] + rest == args;
    }
  }

  lemma FirstTakesOne(args: seq<string>)
    requires args != []
    ensures First(args).1 > 0
  {
  }

  lemma Meaning(arg: string)
    ensures IsLegacy(arg) <==> arg == LEGACY_SKIP_ARG
    ensures IsMode(arg) <==> arg == MODE_ARG
  {
  }

  lemma {:induction false} ParseRender(tokens: seq<Token>)
    requires Spelled(tokens)
    ensures Parse(Render(tokens)) == tokens
    decreases |tokens|
  {
    NotBoth();
    Meaning(LEGACY_SKIP_ARG);
    Meaning(MODE_ARG);
    hide IsLegacy, IsMode, IsModeAssignment;
    if tokens != [] {
      var rest := Render(tokens[1..]);
      ParseRender(tokens[1..]);
      match tokens[0]
      case Mode(v) =>
        assert Render(tokens)[2..] == rest;
      case ModeWithoutValue =>
        assert tokens[1..] == [];
      case _ =>
        assert Render(tokens)[1..] == rest;
    }
  }

  // ---- normalizeClaudePermissionArgs -------------------------------------------------------------

  function NormalizeClaudePermissionArgs(args: seq<string>): seq<string> { Render(Rewritten(Parse(args))) }

  lemma {:induction false} RenderConcat(a: seq<Token>, b: seq<Token>)
    ensures Render(a + b) == Render(a) + Render(b)
    decreases |a|
  {
    if a == [] {
      assert a + b == b;
    } else {
      assert (a + b)[1..] == a[1..] + b;
      RenderConcat(a[1..], b);
    }
  }

  /** What the loop has seen and kept, given the tokens it still has to read. */
  ghost predicate Progress(all: seq<Token>, rest: seq<Token>, normalized: seq<string>, sawLegacySkip: bool,
                           hasPermissionMode: bool) {
    && Render(WithoutLegacy(all)) == normalized + Render(WithoutLegacy(rest))
    && (HasLegacy(all) <==> sawLegacySkip || HasLegacy(rest))
    && (HasMode(all) <==> hasPermissionMode || HasMode(rest))
  }

  lemma ProgressStep(all: seq<Token>, t: Token, rest: seq<Token>, normalized: seq<string>, saw: bool, has: bool)
    requires Progress(all, [t] + rest, normalized, saw, has)
    ensures Progress(all, rest, if t.Legacy? then normalized else normalized + Render([t]),
                     saw || t.Legacy?, has || SetsMode(t))
  {
    assert ([t] + rest)[1..] == rest;
    if !t.Legacy? {
      RenderConcat([t], WithoutLegacy(rest));
    }
    hide Render;
    assert forall x :: x in [t] + rest <==> x == t || x in rest;
  }

  lemma RenderOne(t: Token)
    ensures Render([t]) == match t
                           case Legacy => [LEGACY_SKIP_ARG]
                           case Mode(v) => [MODE_ARG, v]
                           case ModeWithoutValue => [MODE_ARG]
                           case Assignment(a) => [a]
                           case Other(a) => [a]
  {
    assert [t][1..] == [];
  }

  method NormalizeArgs(args: seq<string>) returns (normalized: seq<string>)
    ensures normalized == NormalizeClaudePermissionArgs(args)
  {
    hide IsLegacy, IsMode, IsModeAssignment, Render, Progress;
    normalized := [];
    var sawLegacySkip, hasPermissionMode := false, false;
    ghost var all := Parse(args);
    ProgressStart(all);
    assert args[0..] == args;
    var i := 0;
    while i < |args|
      invariant 0 <= i <= |args|
      invariant Progress(all, Parse(args[i..]), normalized, sawLegacySkip, hasPermissionMode)
    {
      var arg := args[i];
      Meaning(arg);
      ghost var rest := args[i..];
      assert rest[0] == arg && rest[1..] == args[i + 1..];
      if IsLegacy(arg) {
        ProgressStep(all, Legacy, Parse(args[i + 1..]), normalized, sawLegacySkip, hasPermissionMode);
        sawLegacySkip := true;
        i := i + 1;
        continue;
      }
      if IsMode(arg) {
        if i + 1 < |args| {
          assert rest[2..] == args[i + 2..];
          RenderOne(Mode(args[i + 1]));
          ProgressStep(all, Mode(args[i + 1]), Parse(args[i + 2..]), normalized, sawLegacySkip, hasPermissionMode);
          hasPermissionMode := true;
          normalized := normalized + [arg, args[i + 1]];
          i := i + 2;
        } else {
          assert [ModeWithoutValue] + [] == [ModeWithoutValue];
          RenderOne(ModeWithoutValue);
          ProgressStep(all, ModeWithoutValue, [], normalized, sawLegacySkip, hasPermissionMode);
          hasPermissionMode := true;
          normalized := normalized + [arg];
          i := i + 1;
        }
        continue;
      }
      ghost var token := if IsModeAssignment(arg) then Assignment(arg) else Other(arg);
      RenderOne(token);
      ProgressStep(all, token, Parse(args[i + 1..]), normalized, sawLegacySkip, hasPermissionMode);
      if IsModeAssignment(arg) {
        hasPermissionMode := true;
      }
      normalized := normalized + [arg];
      i := i + 1;
    }
    ProgressEnd(all, normalized, sawLegacySkip, hasPermissionMode);
    if sawLegacySkip && !hasPermissionMode {
      normalized := normalized + [MODE_ARG, BYPASS_MODE];
    }
  }

  lemma ProgressStart(all: seq<Token>)
    ensures Progress(all, all, [], false, false)
  {
  }

  lemma ProgressEnd(all: seq<Token>, normalized: seq<string>, saw: bool, has: bool)
    requires Progress(all, [], normalized, saw, has)
    ensures Render(Rewritten(all)) == normalized + if saw && !has then [MODE_ARG, BYPASS_MODE] else []
  {
    RenderOne(Mode(BYPASS_MODE));
    RenderConcat(WithoutLegacy(all), if saw && !has then [Mode(BYPASS_MODE)] else []);
    hide Render;
    NoTokens();
  }

  lemma NoTokens()
    ensures Render([]) == []
  {
  }

  // ---- what the rewrite keeps --------------------------------------------------------------------

  lemma {:induction false} WithoutLegacyKeeps(tokens: seq<Token>)
    ensures forall t :: t in WithoutLegacy(tokens) <==> t in tokens && !t.Legacy?
    ensures Spelled(tokens) ==> Spelled(WithoutLegacy(tokens))
    decreases |tokens|
  {
    hide IsLegacy, IsMode, IsModeAssignment;
    if tokens != [] {
      var rest := WithoutLegacy(tokens[1..]);
      WithoutLegacyKeeps(tokens[1..]);
      assert tokens == [tokens[0]] + tokens[1..];
      assert tokens[0].ModeWithoutValue? && Spelled(tokens) ==> tokens[1..] == [];
    }
  }

  lemma {:induction false} NothingToDrop(tokens: seq<Token>)
    requires !HasLegacy(tokens)
    ensures WithoutLegacy(tokens) == tokens
    decreases |tokens|
  {
    if tokens != [] {
      assert tokens[0] in tokens;
      NothingToDrop(tokens[1..]);
      assert tokens == [tokens[0]] + tokens[1..];
    }
  }

  lemma RewrittenIsSpelled(tokens: seq<Token>)
    requires Spelled(tokens)
    ensures Spelled(Rewritten(tokens)) && !HasLegacy(Rewritten(tokens))
  {
    hide IsLegacy, IsMode, IsModeAssignment;
    WithoutLegacyKeeps(tokens);
    var kept := WithoutLegacy(tokens);
    if !HasMode(tokens) {
      forall i | 0 <= i < |kept| ensures !kept[i].ModeWithoutValue? {
        assert kept[i] in kept;
      }
    }
  }

  /** The options of the result are the other options and the explicit modes of the input, in their
      order; a bypass mode is added exactly when there is no explicit mode and a legacy flag stands
      outside every mode's value position. */
  lemma MeaningPreserved(args: seq<string>)
    ensures var before, after := Parse(args), Parse(NormalizeClaudePermissionArgs(args));
            && after == WithoutLegacy(before)
                        + (if HasLegacy(before) && !HasMode(before) then [Mode(BYPASS_MODE)] else [])
            && !HasLegacy(after)
            && (!HasMode(before) ==> (Mode(BYPASS_MODE) in after <==> HasLegacy(before)))
            && (HasMode(before) ==> forall t :: t in after <==> t in before && !t.Legacy?)
  {
    RenderParse(args);
    RewrittenIsSpelled(Parse(args));
    ParseRender(Rewritten(Parse(args)));
    WithoutLegacyKeeps(Parse(args));
    hide Parse, Render, Spelled, WithoutLegacy;
    assert SetsMode(Mode(BYPASS_MODE));
  }

  /** Normalising twice is normalising once. */
  lemma NormalizeIsIdempotent(args: seq<string>)
    ensures NormalizeClaudePermissionArgs(NormalizeClaudePermissionArgs(args)) == NormalizeClaudePermissionArgs(args)
  {
    MeaningPreserved(args);
    var once := Parse(NormalizeClaudePermissionArgs(args));
    NothingToDrop(once);
    RenderParse(NormalizeClaudePermissionArgs(args));
    hide Parse, Render, WithoutLegacy;
    assert Rewritten(once) == once;
  }

  // ---- the same by positions ---------------------------------------------------------------------

  /** How the three kinds of argument are spelled. */
  lemma Spellings(arg: string)
    ensures IsLegacy(arg) <==> arg == "--dangerously-skip-permissions"
    ensures IsMode(arg) <==> arg == "--permission-mode"
    ensures IsModeAssignment(arg) <==> exists value :: arg == "--permission-mode=" + value
  {
    assert MODE_ARG + "=" == "--permission-mode=";
    if IsModeAssignment(arg) {
      assert arg == "--permission-mode=" + arg[18..];
    }
  }

  /** The argument is the value of the mode option before it, which is not a value itself. */
  predicate IsValue(args: seq<string>, i: nat)
    requires i < |args|
  {
    i > 0 && IsMode(args[i - 1]) && !IsValue(args, i - 1)
  }

  predicate SkipsAt(args: seq<string>, i: nat)
    requires i < |args|
  {
    IsLegacy(args[i]) && !IsValue(args, i)
  }

  predicate SetsModeAt(args: seq<string>, i: nat)
    requires i < |args|
  {
    (IsMode(args[i]) || IsModeAssignment(args[i])) && !IsValue(args, i)
  }

  /** The arguments from position `i` on without the skip flags. */
  function KeptFrom(args: seq<string>, i: nat): seq<string>
    requires i <= |args|
    decreases |args| - i
  {
    if i == |args| then []
    else if SkipsAt(args, i) then KeptFrom(args, i + 1)
    else [args[i]] + KeptFrom(args, i + 1)
  }

  ghost predicate SkipsSomewhere(args: seq<string>) { exists i :: 0 <= i < |args| && SkipsAt(args, i) }

  ghost predicate SetsModeSomewhere(args: seq<string>) { exists i :: 0 <= i < |args| && SetsModeAt(args, i) }

  lemma OneKind(arg: string)
    ensures !(IsLegacy(arg) && IsMode(arg)) && !(IsLegacy(arg) && IsModeAssignment(arg))
    ensures !(IsMode(arg) && IsModeAssignment(arg))
  {
    NotBoth();
    hide IsModeAssignment;
  }

  /** The first option ends where no value stands. */
  lemma FirstEnds(args: seq<string>)
    requires args != [] && First(args).1 < |args|
    ensures !IsValue(args, First(args).1)
  {
    OneKind(args[0]);
    hide IsLegacy, IsMode, IsModeAssignment;
    assert !IsValue(args, 0);
    if First(args).1 == 2 {
      assert IsValue(args, 1);
    }
  }

  /** What follows the first option reads the same on its own. */
  lemma {:induction false} ValueShift(args: seq<string>, k: nat)
    requires args != [] && First(args).1 + k < |args|
    ensures IsValue(args, First(args).1 + k) <==> IsValue(args[First(args).1..], k)
    decreases k
  {
    FirstTakesOne(args);
    hide IsLegacy, IsMode, IsModeAssignment, First;
    var c := First(args).1;
    if k > 0 {
      ValueShift(args, k - 1);
      assert args[c..][k - 1] == args[c + (k - 1)];
    } else {
      FirstEnds(args);
    }
  }

  lemma ShiftAll(args: seq<string>)
    requires args != []
    ensures 0 < First(args).1 <= |args|
    ensures var c := First(args).1;
            forall k :: 0 <= k < |args| - c ==>
              && (SkipsAt(args, c + k) <==> SkipsAt(args[c..], k))
              && (SetsModeAt(args, c + k) <==> SetsModeAt(args[c..], k))
  {
    FirstTakesOne(args);
    ParseFirst(args);
    var c := First(args).1;
    forall k | 0 <= k < |args| - c
      ensures SkipsAt(args, c + k) <==> SkipsAt(args[c..], k)
      ensures SetsModeAt(args, c + k) <==> SetsModeAt(args[c..], k)
    {
      ValueShift(args, k);
      hide First, IsValue, IsLegacy, IsMode, IsModeAssignment;
    }
  }

  lemma {:induction false} KeptShift(args: seq<string>, k: nat)
    requires args != [] && First(args).1 + k <= |args|
    ensures KeptFrom(args, First(args).1 + k) == KeptFrom(args[First(args).1..], k)
    decreases |args| - k
  {
    ShiftAll(args);
    hide First, SkipsAt;
    if First(args).1 + k < |args| {
      KeptShift(args, k + 1);
    }
  }

  lemma KeptOne(args: seq<string>, i: nat)
    requires i < |args|
    ensures KeptFrom(args, i) == (if SkipsAt(args, i) then [] else [args[i]]) + KeptFrom(args, i + 1)
  {
    hide SkipsAt;
  }

  /** The first argument is no value, and the second is one exactly when the first option takes both. */
  lemma FirstReads(args: seq<string>)
    requires args != []
    ensures First(args).1 == (if IsMode(args[0]) && |args| > 1 then 2 else 1)
    ensures SkipsAt(args, 0) <==> First(args).0.Legacy?
    ensures SetsModeAt(args, 0) <==> SetsMode(First(args).0)
    ensures First(args).1 == 2 ==> !SkipsAt(args, 1) && !SetsModeAt(args, 1) && !First(args).0.Legacy?
  {
    OneKind(args[0]);
    hide IsLegacy, IsMode, IsModeAssignment;
    assert !IsValue(args, 0);
    if First(args).1 == 2 {
      assert IsValue(args, 1);
    }
  }

  lemma FirstRenders(args: seq<string>)
    requires args != []
    ensures !First(args).0.Legacy? ==> First(args).1 <= |args| && Render([First(args).0]) == args[..First(args).1]
  {
    RenderFirst(args);
    hide *;
  }

  lemma OneKept(args: seq<string>, x: seq<string>)
    requires args != [] && KeptFrom(args, 0) == x + KeptFrom(args, 1) && First(args).1 == 1
    requires x == if First(args).0.Legacy? then [] else [args[0]]
    ensures First(args).1 <= |args|
    ensures KeptFrom(args, 0)
         == (if First(args).0.Legacy? then [] else args[..First(args).1]) + KeptFrom(args, First(args).1)
  {
    hide *;
    assert args[..1] == [args[0]];
  }

  /** What the first option keeps, skips and sets. */
  lemma FirstKeeps(args: seq<string>)
    requires args != []
    ensures First(args).1 <= |args|
    ensures KeptFrom(args, 0)
         == (if First(args).0.Legacy? then [] else Render([First(args).0])) + KeptFrom(args, First(args).1)
  {
    hide *;
    FirstReads(args);
    FirstRenders(args);
    KeptOne(args, 0);
    if First(args).1 == 2 {
      KeptOne(args, 1);
      TwoKept(args, KeptFrom(args, 2));
    } else {
      OneKept(args, if First(args).0.Legacy? then [] else [args[0]]);
    }
  }

  lemma TwoKept(args: seq<string>, rest: seq<string>)
    requires |args| >= 2
    ensures [args[0]] + ([args[1]] + rest) == args[..2] + rest
  {
  }

  lemma FirstSkipsOrSets(args: seq<string>)
    requires args != []
    ensures 0 < First(args).1 <= |args|
    ensures First(args).0.Legacy? <==> exists i :: 0 <= i < First(args).1 && SkipsAt(args, i)
    ensures SetsMode(First(args).0) <==> exists i :: 0 <= i < First(args).1 && SetsModeAt(args, i)
  {
    FirstReads(args);
    hide *;
  }

  /** Read as options or by positions, an argument list keeps, skips and sets the same. */
  ghost predicate ByPosition(args: seq<string>) {
    && Render(WithoutLegacy(Parse(args))) == KeptFrom(args, 0)
    && (HasLegacy(Parse(args)) <==> SkipsSomewhere(args))
    && (HasMode(Parse(args)) <==> SetsModeSomewhere(args))
  }

  lemma NothingByPosition()
    ensures ByPosition([])
  {
  }

  lemma SomewhereSplits(args: seq<string>)
    requires args != []
    ensures var c := First(args).1;
            && 0 < c <= |args|
            && (SkipsSomewhere(args) <==> (exists i :: 0 <= i < c && SkipsAt(args, i)) || SkipsSomewhere(args[c..]))
            && (SetsModeSomewhere(args)
                <==> (exists i :: 0 <= i < c && SetsModeAt(args, i)) || SetsModeSomewhere(args[c..]))
  {
    ShiftAll(args);
    hide First, SkipsAt, SetsModeAt;
    var c := First(args).1;
    if i :| 0 <= i < |args| && SkipsAt(args, i) && i >= c {
      assert SkipsAt(args[c..], i - c);
    }
    if i :| 0 <= i < |args| && SetsModeAt(args, i) && i >= c {
      assert SetsModeAt(args[c..], i - c);
    }
    if i :| 0 <= i < |args| - c && SkipsAt(args[c..], i) {
      assert SkipsAt(args, c + i);
    }
    if i :| 0 <= i < |args| - c && SetsModeAt(args[c..], i) {
      assert SetsModeAt(args, c + i);
    }
  }

  lemma ConsKeeps(t: Token, rest: seq<Token>)
    ensures Render(WithoutLegacy([t] + rest)) == (if t.Legacy? then [] else Render([t])) + Render(WithoutLegacy(rest))
    ensures HasLegacy([t] + rest) <==> t.Legacy? || HasLegacy(rest)
    ensures HasMode([t] + rest) <==> SetsMode(t) || HasMode(rest)
  {
    assert ([t] + rest)[1..] == rest;
    RenderConcat([t], WithoutLegacy(rest));
    hide Render;
    assert forall x :: x in [t] + rest <==> x == t || x in rest;
  }

  lemma ByPositionMeans(args: seq<string>)
    requires ByPosition(args)
    ensures Render(WithoutLegacy(Parse(args))) == KeptFrom(args, 0)
    ensures HasLegacy(Parse(args)) <==> SkipsSomewhere(args)
    ensures HasMode(Parse(args)) <==> SetsModeSomewhere(args)
  {
    hide Parse, Render, WithoutLegacy, HasLegacy, HasMode, SkipsSomewhere, SetsModeSomewhere, KeptFrom;
  }

  lemma ByPositionWhen(args: seq<string>, x: seq<string>, kept: seq<string>)
    requires KeptFrom(args, 0) == x + kept && Render(WithoutLegacy(Parse(args))) == x + kept
    requires HasLegacy(Parse(args)) <==> SkipsSomewhere(args)
    requires HasMode(Parse(args)) <==> SetsModeSomewhere(args)
    ensures ByPosition(args)
  {
    hide Parse, Render, WithoutLegacy, HasLegacy, HasMode, SkipsSomewhere, SetsModeSomewhere, KeptFrom;
  }

  lemma {:induction false} AlwaysByPosition(args: seq<string>)
    ensures ByPosition(args)
    decreases |args|
  {
    hide *;
    if args == [] {
      NothingByPosition();
    } else {
      FirstKeeps(args);
      FirstSkipsOrSets(args);
      SomewhereSplits(args);
      KeptShift(args, 0);
      ParseFirst(args);
      var t, c := First(args).0, First(args).1;
      var rest := args[c..];
      AlwaysByPosition(rest);
      ByPositionMeans(rest);
      ConsKeeps(t, Parse(rest));
      ByPositionWhen(args, if t.Legacy? then [] else Render([t]), KeptFrom(rest, 0));
    }
  }

  /** The result keeps every argument but the skip flags, in order, and ends with the bypass mode exactly
      when there is a skip flag and no mode; a value of a mode option counts as neither. */
  lemma NormalizedByPosition(args: seq<string>)
    ensures NormalizeClaudePermissionArgs(args)
         == KeptFrom(args, 0)
            + if SkipsSomewhere(args) && !SetsModeSomewhere(args)
              then ["--permission-mode", "bypassPermissions"] else []
  {
    AlwaysByPosition(args);
    var tokens := Parse(args);
    var added := if HasLegacy(tokens) && !HasMode(tokens) then [Mode(BYPASS_MODE)] else [];
    RenderConcat(WithoutLegacy(tokens), added);
    RenderOne(Mode(BYPASS_MODE));
    NoTokens();
    hide Parse, Render, WithoutLegacy, HasLegacy, HasMode, SkipsSomewhere, SetsModeSomewhere, KeptFrom;
  }
}
