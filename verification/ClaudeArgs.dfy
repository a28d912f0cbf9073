/** The two argument passes of the Claude CLI backend, and their composition. */
module ClaudeArgs {
  import opened Common

  function Legacy(): string { "--dangerously-skip-permissions" }
  function Mode(): string { "--permission-mode" }
  function Bypass(): string { "bypassPermissions" }
  function Sources(): string { "--setting-sources" }
  function User(): string { "user" }
  function SourcesUser(): string { "--setting-sources=user" }

  /** A non-blank argument that is not a flag: what may follow a flag as its value. */
  predicate IsValue(arg: string) {
    !IsBlank(arg) && !("-" <= arg)
  }

  /** A value has a character that is not white space, and does not start with a dash. */
  lemma IsValueIff(arg: string)
    ensures IsValue(arg) <==> arg != "" && arg[0] != '-' && exists i :: 0 <= i < |arg| && !IsWhitespace(arg[i])
  {
  }

  /** `args[i]` exists and is a value. */
  predicate ValueAt(args: seq<string>, i: nat) {
    i < |args| && IsValue(args[i])
  }

  predicate ModeInline(arg: string) {
    Mode() + "=" <= arg
  }

  predicate SourcesInline(arg: string) {
    Sources() + "=" <= arg
  }

  lemma InlineFacts()
    ensures forall a :: ModeInline(a) ==> |a| > |Mode()| && a[0] == '-' && a[2] == 'p' && !IsValue(a)
    ensures forall a :: SourcesInline(a) ==> |a| > |Sources()| && a[0] == '-' && a[2] == 's' && !IsValue(a)
  {
    assert Mode()[2] == 'p' && Sources()[2] == 's';
  }

  lemma ValueFacts()
    ensures !IsValue(Legacy()) && !IsValue(Mode()) && !IsValue(Sources()) && !IsValue(SourcesUser())
    ensures IsValue(User()) && IsValue(Bypass())
  {
    assert !IsWhitespace(User()[0]) && !IsWhitespace(Bypass()[0]);
  }

  lemma TextFacts()
    ensures |Legacy()| > 2 && |Mode()| > 2 && |Sources()| > 2 && |SourcesUser()| > |Sources()|
    ensures Legacy()[2] == 'd' && Mode()[2] == 'p' && Sources()[2] == 's' && SourcesUser()[2] == 's'
    ensures SourcesInline(SourcesUser())
  {
    assert SourcesUser() == Sources() + "=" + User();
  }

  /** Everything the proofs need to know about the literal texts. */
  lemma FlagFacts()
    ensures Legacy() != Mode() && Legacy() != Sources() && Mode() != Sources()
    ensures !IsValue(Legacy()) && !IsValue(Mode()) && !IsValue(Sources()) && !IsValue(SourcesUser())
    ensures IsValue(User()) && IsValue(Bypass())
    ensures SourcesInline(SourcesUser()) && !ModeInline(SourcesUser())
    ensures SourcesUser() != Legacy() && SourcesUser() != Mode() && SourcesUser() != Sources()
    ensures !ModeInline(Legacy()) && !ModeInline(Mode()) && !ModeInline(Sources())
    ensures !SourcesInline(Legacy()) && !SourcesInline(Mode()) && !SourcesInline(Sources())
    ensures forall a :: ModeInline(a) ==> !SourcesInline(a) && !IsValue(a)
    ensures forall a :: SourcesInline(a) ==> !IsValue(a)
  {
    hide Legacy, Mode, Sources, SourcesUser, User, Bypass, IsValue, ModeInline, SourcesInline;
    TextFacts();
    ValueFacts();
    InlineFacts();
  }

  // ----- the passes -----

  /** The permission pass, without what it appends. */
  function PermissionBody(args: seq<string>): seq<string> {
    if args == [] then []
    else if args[0] == Legacy() then PermissionBody(args[1..])
    else if args[0] == Mode() then
      if ValueAt(args, 1) then [args[0], args[1]] + PermissionBody(args[2..]) else PermissionBody(args[1..])
    else [args[0]] + PermissionBody(args[1..])
  }

  predicate HasMode(args: seq<string>) {
    if args == [] then false
    else if args[0] == Legacy() then HasMode(args[1..])
    else if args[0] == Mode() then if ValueAt(args, 1) then true else HasMode(args[1..])
    else ModeInline(args[0]) || HasMode(args[1..])
  }

  function PermissionPass(args: seq<string>): seq<string> {
    PermissionBody(args) + (if HasMode(args) then [] else [Mode(), Bypass()])
  }

  lemma Regroup<T>(a: seq<T>, b: seq<T>, c: seq<T>)
    ensures a + b + c == a + (b + c)
  {
  }

  /** One iteration of the permission loop, seen from the remaining arguments. */
  lemma PermissionStep(a: seq<string>, i: nat)
    requires i < |a|
    ensures a[i] == Legacy() ==>
              PermissionBody(a[i..]) == PermissionBody(a[i + 1..]) && HasMode(a[i..]) == HasMode(a[i + 1..])
    ensures a[i] != Legacy() && a[i] == Mode() && ValueAt(a, i + 1) ==>
              PermissionBody(a[i..]) == [a[i], a[i + 1]] + PermissionBody(a[i + 2..]) && HasMode(a[i..])
    ensures a[i] != Legacy() && a[i] == Mode() && !ValueAt(a, i + 1) ==>
              PermissionBody(a[i..]) == PermissionBody(a[i + 1..]) && HasMode(a[i..]) == HasMode(a[i + 1..])
    ensures a[i] != Legacy() && a[i] != Mode() ==>
              && PermissionBody(a[i..]) == [a[i]] + PermissionBody(a[i + 1..])
              && HasMode(a[i..]) == (ModeInline(a[i]) || HasMode(a[i + 1..]))
  {
    hide Legacy, Mode, IsValue, ModeInline;
    assert a[i..][1..] == a[i + 1..];
    if i + 1 < |a| {
      assert a[i..][2..] == a[i + 2..] && a[i..][1] == a[i + 1];
    }
  }

  method NormalizeClaudePermissionArgs(args: Option<seq<string>>) returns (r: Option<seq<string>>)
    ensures r == if args.Some? then Some(PermissionPass(args.value)) else None
  {
    if args.None? {
      return None;
    }
    var a := args.value;
    assert PermissionBody([]) == [] && !HasMode([]);
    hide Legacy, Mode, Bypass, IsValue, ModeInline, PermissionBody, HasMode;
    var normalized: seq<string> := [];
    var hasPermissionMode := false;
    var i := 0;
    while i < |a|
      invariant 0 <= i <= |a|
      invariant PermissionBody(a) == normalized + PermissionBody(a[i..])
      invariant (hasPermissionMode || HasMode(a[i..])) == HasMode(a)
      decreases |a| - i
    {
      var arg := a[i];
      PermissionStep(a, i);
      if arg == Legacy() {
        i := i + 1;
        continue;
      }
      if arg == Mode() {
        if i + 1 < |a| && IsValue(a[i + 1]) {
          hasPermissionMode := true;
          Regroup(normalized, [arg, a[i + 1]], PermissionBody(a[i + 2..]));
          normalized := normalized + [arg, a[i + 1]];
          i := i + 1;
        }
        i := i + 1;
        continue;
      }
      if ModeInline(arg) {
        hasPermissionMode := true;
      }
      Regroup(normalized, [arg], PermissionBody(a[i + 1..]));
      normalized := normalized + [arg];
      i := i + 1;
    }
    assert a[i..] == [] && normalized + [] == normalized;
    if !hasPermissionMode {
      normalized := normalized + [Mode(), Bypass()];
    }
    r := Some(normalized);
  }

  /** The setting-sources pass, without what it appends. */
  function SourcesBody(args: seq<string>): seq<string> {
    if args == [] then []
    else if args[0] == Sources() then
      if ValueAt(args, 1) then [Sources(), User()] + SourcesBody(args[2..]) else SourcesBody(args[1..])
    else if SourcesInline(args[0]) then [SourcesUser()] + SourcesBody(args[1..])
    else [args[0]] + SourcesBody(args[1..])
  }

  predicate HasSources(args: seq<string>) {
    if args == [] then false
    else if args[0] == Sources() then if ValueAt(args, 1) then true else HasSources(args[1..])
    else SourcesInline(args[0]) || HasSources(args[1..])
  }

  function SourcesTail(args: seq<string>): seq<string> {
    if HasSources(args) then [] else [Sources(), User()]
  }

  function SourcesPass(args: seq<string>): seq<string> {
    SourcesBody(args) + SourcesTail(args)
  }

  /** One iteration of the loop, seen from the remaining arguments. */
  lemma SourcesStep(a: seq<string>, i: nat)
    requires i < |a|
    ensures a[i] == Sources() && ValueAt(a, i + 1) ==>
              SourcesBody(a[i..]) == [Sources(), User()] + SourcesBody(a[i + 2..]) && HasSources(a[i..])
    ensures a[i] == Sources() && !ValueAt(a, i + 1) ==>
              SourcesBody(a[i..]) == SourcesBody(a[i + 1..]) && HasSources(a[i..]) == HasSources(a[i + 1..])
    ensures a[i] != Sources() ==>
              && SourcesBody(a[i..]) == [if SourcesInline(a[i]) then SourcesUser() else a[i]] + SourcesBody(a[i + 1..])
              && HasSources(a[i..]) == (SourcesInline(a[i]) || HasSources(a[i + 1..]))
  {
    hide Sources, User, SourcesUser, IsValue, SourcesInline;
    assert a[i..][1..] == a[i + 1..];
    if i + 1 < |a| {
      assert a[i..][2..] == a[i + 2..] && a[i..][1] == a[i + 1];
    }
  }

  method NormalizeClaudeSettingSourcesArgs(args: Option<seq<string>>) returns (r: Option<seq<string>>)
    ensures r == if args.Some? then Some(SourcesPass(args.value)) else None
  {
    if args.None? {
      return None;
    }
    var a := args.value;
    assert SourcesBody([]) == [] && !HasSources([]);
    hide Sources, User, SourcesUser, IsValue, SourcesInline, SourcesBody, HasSources;
    var normalized: seq<string> := [];
    var hasSettingSources := false;
    var i := 0;
    while i < |a|
      invariant 0 <= i <= |a|
      invariant SourcesBody(a) == normalized + SourcesBody(a[i..])
      invariant (hasSettingSources || HasSources(a[i..])) == HasSources(a)
      decreases |a| - i
    {
      var arg := a[i];
      SourcesStep(a, i);
      if arg == Sources() {
        if i + 1 < |a| && IsValue(a[i + 1]) {
          hasSettingSources := true;
          Regroup(normalized, [arg, User()], SourcesBody(a[i + 2..]));
          normalized := normalized + [arg, User()];
          i := i + 1;
        }
        i := i + 1;
        continue;
      }
      if SourcesInline(arg) {
        hasSettingSources := true;
        Regroup(normalized, [SourcesUser()], SourcesBody(a[i + 1..]));
        normalized := normalized + [SourcesUser()];
        i := i + 1;
        continue;
      }
      Regroup(normalized, [arg], SourcesBody(a[i + 1..]));
      normalized := normalized + [arg];
      i := i + 1;
    }
    assert a[i..] == [] && normalized + [] == normalized;
    if !hasSettingSources {
      normalized := normalized + [Sources(), User()];
    }
    r := Some(normalized);
  }

  /** The composition: setting sources first, then permissions. */
  function Normalized(args: seq<string>): seq<string> {
    PermissionPass(SourcesPass(args))
  }

  datatype Config = Config(args: Option<seq<string>>, resumeArgs: Option<seq<string>>)

  /** `normalizeClaudeBackendConfig`, as far as it concerns the argument lists. */
  method NormalizeClaudeBackendConfig(config: Config) returns (r: Config)
    ensures r.args == if config.args.Some? then Some(Normalized(config.args.value)) else None
    ensures r.resumeArgs == if config.resumeArgs.Some? then Some(Normalized(config.resumeArgs.value)) else None
  {
    var args := NormalizeClaudeSettingSourcesArgs(config.args);
    args := NormalizeClaudePermissionArgs(args);
    var resumeArgs := NormalizeClaudeSettingSourcesArgs(config.resumeArgs);
    resumeArgs := NormalizeClaudePermissionArgs(resumeArgs);
    r := Config(args, resumeArgs);
  }

  // ----- what the composition means: one reading of the command line -----

  /** An argument, or a flag with its value. A flag without a value is bare. */
  datatype Token =
    | LegacyFlag
    | ModeFlag(value: string)
    | BareMode
    | ModeEquals(arg: string)
    | SourcesFlag(value: string)
    | BareSources
    | SourcesEquals(arg: string)
    | Plain(arg: string)

  function Tokens(args: seq<string>): seq<Token> {
    if args == [] then []
    else if args[0] == Legacy() then [LegacyFlag] + Tokens(args[1..])
    else if args[0] == Mode() then
      if ValueAt(args, 1) then [ModeFlag(args[1])] + Tokens(args[2..]) else [BareMode] + Tokens(args[1..])
    else if args[0] == Sources() then
      if ValueAt(args, 1) then [SourcesFlag(args[1])] + Tokens(args[2..]) else [BareSources] + Tokens(args[1..])
    else if ModeInline(args[0]) then [ModeEquals(args[0])] + Tokens(args[1..])
    else if SourcesInline(args[0]) then [SourcesEquals(args[0])] + Tokens(args[1..])
    else [Plain(args[0])] + Tokens(args[1..])
  }

  /** What is left of a token: nothing of a legacy or bare flag, the safe value of a
      setting source, everything else as it was. */
  function Rendered(t: Token): seq<string> {
    match t
    case LegacyFlag => []
    case BareMode => []
    case BareSources => []
    case ModeFlag(value) => [Mode(), value]
    case ModeEquals(arg) => [arg]
    case SourcesFlag(_) => [Sources(), User()]
    case SourcesEquals(_) => [SourcesUser()]
    case Plain(arg) => [arg]
  }

  function RenderAll(ts: seq<Token>): seq<string> {
    if ts == [] then [] else Rendered(ts[0]) + RenderAll(ts[1..])
  }

  predicate SetsMode(ts: seq<Token>) {
    ts != [] && (ts[0].ModeFlag? || ts[0].ModeEquals? || SetsMode(ts[1..]))
  }

  predicate SetsSources(ts: seq<Token>) {
    ts != [] && (ts[0].SourcesFlag? || ts[0].SourcesEquals? || SetsSources(ts[1..]))
  }

  /** What the composition appends when nothing sets a source or a mode. */
  function Appended(ts: seq<Token>): seq<Token> {
    (if SetsSources(ts) then [] else [SourcesFlag(User())]) + (if SetsMode(ts) then [] else [ModeFlag(Bypass())])
  }

  // ----- the permission pass over what the sources pass leaves -----

  lemma PermissionCons(a: string, x: seq<string>)
    ensures a != Legacy() && a != Mode() ==>
              PermissionBody([a] + x) == [a] + PermissionBody(x) && HasMode([a] + x) == (ModeInline(a) || HasMode(x))
    ensures PermissionBody([Legacy()] + x) == PermissionBody(x) && HasMode([Legacy()] + x) == HasMode(x)
    ensures !ValueAt(x, 0) ==> PermissionBody([Mode()] + x) == PermissionBody(x) && HasMode([Mode()] + x) == HasMode(x)
    ensures IsValue(a) ==> PermissionBody([Mode(), a] + x) == [Mode(), a] + PermissionBody(x) && HasMode([Mode(), a] + x)
  {
    FlagFacts();
    hide Legacy, Mode, IsValue, ModeInline;
    assert ([a] + x)[1..] == x && ([Legacy()] + x)[1..] == x && ([Mode()] + x)[1..] == x;
    assert ([Mode(), a] + x)[2..] == x;
    if x != [] { assert ([Mode()] + x)[1] == x[0]; }
  }

  /** What the sources pass may append. */
  predicate IsTail(tail: seq<string>) {
    tail == [] || tail == [Sources(), User()]
  }

  /** A bare `--permission-mode` stays bare: the sources pass brings no value next to it. */
  lemma {:induction false} HeadStaysBare(args: seq<string>, tail: seq<string>)
    requires !ValueAt(args, 0) && IsTail(tail)
    ensures !ValueAt(SourcesBody(args) + tail, 0)
  {
    FlagFacts();
    hide Sources, User, SourcesUser, Legacy, Mode, IsValue, SourcesInline;
    if args != [] && args[0] == Sources() && !ValueAt(args, 1) {
      assert !ValueAt(args[1..], 0) by { if |args| > 1 { assert args[1..][0] == args[1]; } }
      HeadStaysBare(args[1..], tail);
    }
  }

  /** Plain arguments are no flags, and values are values. */
  predicate Sound(t: Token) {
    match t
    case LegacyFlag => true
    case BareMode => true
    case BareSources => true
    case ModeFlag(value) => IsValue(value)
    case SourcesFlag(value) => IsValue(value)
    case ModeEquals(arg) => ModeInline(arg)
    case SourcesEquals(arg) => SourcesInline(arg)
    case Plain(arg) => arg != Legacy() && arg != Mode() && arg != Sources() && !ModeInline(arg) && !SourcesInline(arg)
  }

  /** What the sources pass makes of one token. */
  function AfterSources(t: Token): seq<string> {
    match t
    case LegacyFlag => [Legacy()]
    case BareMode => [Mode()]
    case BareSources => []
    case ModeFlag(value) => [Mode(), value]
    case ModeEquals(arg) => [arg]
    case SourcesFlag(_) => [Sources(), User()]
    case SourcesEquals(_) => [SourcesUser()]
    case Plain(arg) => [arg]
  }

  predicate IsMode(t: Token) {
    t.ModeFlag? || t.ModeEquals?
  }

  predicate IsSources(t: Token) {
    t.SourcesFlag? || t.SourcesEquals?
  }

  /** `t` is the first token of `args`, `rest` what follows it; the sources pass agrees. */
  ghost predicate ReadsAs(args: seq<string>, t: Token, rest: seq<string>) {
    && |rest| < |args| && Tokens(args) == [t] + Tokens(rest) && Sound(t)
    && SourcesBody(args) == AfterSources(t) + SourcesBody(rest)
    && HasSources(args) == (IsSources(t) || HasSources(rest))
    && (t.BareMode? ==> !ValueAt(rest, 0))
  }

  lemma ReadMode(args: seq<string>)
    requires |args| > 1 && IsValue(args[1]) && args[0] == Mode()
    ensures ReadsAs(args, ModeFlag(args[1]), args[2..])
  {
    FlagFacts();
    hide Sources, User, SourcesUser, Legacy, Mode, IsValue, SourcesInline, ModeInline;
    assert args[1..][1..] == args[2..];
    assert SourcesBody(args[1..]) == [args[1]] + SourcesBody(args[1..][1..]);
    assert HasSources(args[1..]) == HasSources(args[1..][1..]);
    assert SourcesBody(args) == [args[0]] + ([args[1]] + SourcesBody(args[2..]));
  }

  lemma ReadSources(args: seq<string>)
    requires |args| > 1 && IsValue(args[1]) && args[0] == Sources()
    ensures ReadsAs(args, SourcesFlag(args[1]), args[2..])
  {
    FlagFacts();
    hide Sources, User, SourcesUser, Legacy, Mode, IsValue, SourcesInline, ModeInline;
  }

  lemma ReadSingle(args: seq<string>)
    requires args != [] && !((args[0] == Mode() || args[0] == Sources()) && ValueAt(args, 1))
    ensures ReadsAs(args, Tokens(args)[0], args[1..])
  {
    FlagFacts();
    hide Sources, User, SourcesUser, Legacy, Mode, IsValue, SourcesInline, ModeInline;
  }

  /** One step of the reading. */
  lemma ReadOne(args: seq<string>) returns (t: Token, rest: seq<string>)
    requires args != []
    ensures ReadsAs(args, t, rest)
  {
    hide Tokens, IsValue, Mode, Sources;
    if args[0] == Mode() && ValueAt(args, 1) {
      ReadMode(args);
      t, rest := ModeFlag(args[1]), args[2..];
    } else if args[0] == Sources() && ValueAt(args, 1) {
      ReadSources(args);
      t, rest := SourcesFlag(args[1]), args[2..];
    } else {
      ReadSingle(args);
      t, rest := Tokens(args)[0], args[1..];
    }
  }

  /** The permission pass on what the sources pass left of one token. */
  lemma PermissionOne(t: Token, x: seq<string>)
    requires Sound(t) && (t.BareMode? ==> !ValueAt(x, 0))
    ensures PermissionBody(AfterSources(t) + x) == Rendered(t) + PermissionBody(x)
    ensures HasMode(AfterSources(t) + x) == (IsMode(t) || HasMode(x))
  {
    FlagFacts();
    hide Sources, User, SourcesUser, Legacy, Mode, IsValue, SourcesInline, ModeInline, PermissionBody, HasMode;
    match t
    case LegacyFlag => PermissionCons(Legacy(), x);
    case BareMode => PermissionCons(Mode(), x);
    case BareSources => assert AfterSources(t) + x == x;
    case ModeFlag(value) => PermissionCons(value, x);
    case ModeEquals(arg) => PermissionCons(arg, x);
    case SourcesFlag(_) =>
      PermissionCons(Sources(), [User()] + x);
      PermissionCons(User(), x);
      assert AfterSources(t) + x == [Sources()] + ([User()] + x);
      assert Rendered(t) + PermissionBody(x) == [Sources()] + ([User()] + PermissionBody(x));
    case SourcesEquals(_) => PermissionCons(SourcesUser(), x);
    case Plain(arg) => PermissionCons(arg, x);
  }

  lemma TailIsKept(tail: seq<string>)
    requires IsTail(tail)
    ensures PermissionBody(tail) == tail && !HasMode(tail)
  {
    if tail != [] {
      FlagFacts();
      PermissionOne(SourcesFlag(User()), []);
      assert AfterSources(SourcesFlag(User())) + [] == tail;
    }
  }

  /** The two passes amount to one reading of the tokens: neither undoes the other. */
  lemma {:induction false} PassesReadOnce(args: seq<string>, tail: seq<string>)
    requires IsTail(tail)
    ensures PermissionBody(SourcesBody(args) + tail) == RenderAll(Tokens(args)) + tail
    ensures HasMode(SourcesBody(args) + tail) == SetsMode(Tokens(args))
    ensures HasSources(args) == SetsSources(Tokens(args))
    decreases |args|
  {
    if args == [] {
      TailIsKept(tail);
      assert SourcesBody(args) + tail == tail && RenderAll([]) + tail == tail;
    } else {
      var t, rest := ReadOne(args);
      var body := SourcesBody(rest) + tail;
      if t.BareMode? { HeadStaysBare(rest, tail); }
      hide SourcesBody, PermissionBody, HasMode, HasSources, Tokens, Sound, IsTail;
      PassesReadOnce(rest, tail);
      PermissionOne(t, body);
      Regroup(AfterSources(t), SourcesBody(rest), tail);
      assert Tokens(args)[1..] == Tokens(rest);
      Regroup(Rendered(t), RenderAll(Tokens(rest)), tail);
    }
  }

  lemma {:induction false} RenderAppend(a: seq<Token>, b: seq<Token>)
    ensures RenderAll(a + b) == RenderAll(a) + RenderAll(b)
    ensures SetsMode(a + b) == (SetsMode(a) || SetsMode(b)) && SetsSources(a + b) == (SetsSources(a) || SetsSources(b))
  {
    if a == [] {
      assert a + b == b;
    } else {
      RenderAppend(a[1..], b);
      assert (a + b)[1..] == a[1..] + b;
      hide Rendered;
      Regroup(Rendered(a[0]), RenderAll(a[1..]), RenderAll(b));
    }
  }

  /** The tokens of the result, before they are rendered. */
  function Result(args: seq<string>): seq<Token> {
    Tokens(args) + Appended(Tokens(args))
  }

  /** The composition is one reading of the command line: every token is rendered once, and
      the safe source and the bypass mode are added when nothing sets them. */
  lemma NormalizedIsRendering(args: seq<string>)
    ensures Normalized(args) == RenderAll(Result(args))
    ensures SetsMode(Result(args)) && SetsSources(Result(args))
  {
    var ts := Tokens(args);
    PassesReadOnce(args, SourcesTail(args));
    var s := if SetsSources(ts) then [] else [SourcesFlag(User())];
    var m := if SetsMode(ts) then [] else [ModeFlag(Bypass())];
    hide Tokens, PermissionBody, HasMode, SourcesBody, HasSources, Sources, User, Mode, Bypass;
    RenderAppend(ts, s + m);
    RenderAppend(s, m);
    assert RenderAll(s) == SourcesTail(args);
    assert RenderAll(m) == if SetsMode(ts) then [] else [Mode(), Bypass()];
    Regroup(RenderAll(ts), RenderAll(s), RenderAll(m));
  }

  // ----- running it again -----

  ghost predicate AllSound(ts: seq<Token>) {
    forall t :: t in ts ==> Sound(t)
  }

  lemma {:induction false} TokensAreSound(args: seq<string>)
    ensures AllSound(Tokens(args))
    decreases |args|
  {
    if args != [] {
      var t, rest := ReadOne(args);
      TokensAreSound(rest);
      hide Sound, Tokens;
    }
  }

  /** What a rendered token reads as. */
  function Cleaned(t: Token): seq<Token> {
    match t
    case LegacyFlag => []
    case BareMode => []
    case BareSources => []
    case ModeFlag(_) => [t]
    case ModeEquals(_) => [t]
    case SourcesFlag(_) => [SourcesFlag(User())]
    case SourcesEquals(_) => [SourcesEquals(SourcesUser())]
    case Plain(_) => [t]
  }

  function CleanAll(ts: seq<Token>): seq<Token> {
    if ts == [] then [] else Cleaned(ts[0]) + CleanAll(ts[1..])
  }

  lemma ReadRendered(t: Token, x: seq<string>)
    requires Sound(t)
    ensures Tokens(Rendered(t) + x) == Cleaned(t) + Tokens(x)
  {
    FlagFacts();
    hide Sources, User, SourcesUser, Legacy, Mode, IsValue, SourcesInline, ModeInline;
    var args := Rendered(t) + x;
    if Rendered(t) == [] {
      assert args == x;
    } else if t.ModeFlag? || t.SourcesFlag? {
      assert args[1] == Rendered(t)[1] && args[2..] == x;
    } else {
      assert args[1..] == x;
    }
  }

  lemma {:induction false} RenderedReadsBack(ts: seq<Token>)
    requires AllSound(ts)
    ensures Tokens(RenderAll(ts)) == CleanAll(ts)
  {
    if ts != [] {
      assert AllSound(ts[1..]) && Sound(ts[0]);
      hide Sound, Tokens, Rendered, Cleaned;
      RenderedReadsBack(ts[1..]);
      ReadRendered(ts[0], RenderAll(ts[1..]));
    } else {
      assert RenderAll(ts) == [] && CleanAll(ts) == [] && Tokens([]) == [];
    }
  }

  lemma {:induction false} CleaningChangesNoText(ts: seq<Token>)
    ensures RenderAll(CleanAll(ts)) == RenderAll(ts)
    ensures SetsMode(CleanAll(ts)) == SetsMode(ts) && SetsSources(CleanAll(ts)) == SetsSources(ts)
  {
    if ts != [] {
      CleaningChangesNoText(ts[1..]);
      CleanedOne(ts[0]);
      RenderAppend(Cleaned(ts[0]), CleanAll(ts[1..]));
    }
  }

  lemma CleanedOne(t: Token)
    ensures RenderAll(Cleaned(t)) == Rendered(t)
    ensures SetsMode(Cleaned(t)) == IsMode(t) && SetsSources(Cleaned(t)) == IsSources(t)
  {
    if Cleaned(t) != [] {
      assert Cleaned(t)[1..] == [];
    }
  }

  lemma ResultIsSound(args: seq<string>)
    ensures AllSound(Result(args))
  {
    FlagFacts();
    TokensAreSound(args);
  }

  /** The composition is idempotent. */
  lemma Idempotent(args: seq<string>)
    ensures Normalized(Normalized(args)) == Normalized(args)
  {
    var ts := Result(args);
    NormalizedIsRendering(args);
    ResultIsSound(args);
    RenderedReadsBack(ts);
    CleaningChangesNoText(ts);
    var again := Tokens(Normalized(args));
    hide Tokens, Result, RenderAll, CleanAll, Normalized;
    NormalizedIsRendering(Normalized(args));
    assert Appended(again) == [];
    ResultAgain(args);
  }

  lemma ResultAgain(args: seq<string>)
    requires Appended(Tokens(Normalized(args))) == []
    ensures Result(Normalized(args)) == Tokens(Normalized(args))
  {
  }

  // ----- the form of the result -----

  /** No legacy flag; every flag that needs a value has one; sources are the safe ones. */
  ghost predicate WellFormed(args: seq<string>) {
    && (forall i :: 0 <= i < |args| ==> args[i] != Legacy())
    && (forall i :: 0 <= i < |args| && args[i] == Mode() ==> ValueAt(args, i + 1))
    && (forall i :: 0 <= i < |args| && args[i] == Sources() ==> i + 1 < |args| && args[i + 1] == User())
    && (forall i :: 0 <= i < |args| && SourcesInline(args[i]) ==> args[i] == SourcesUser())
  }

  predicate NamesMode(arg: string) {
    arg == Mode() || ModeInline(arg)
  }

  predicate NamesSources(arg: string) {
    arg == Sources() || arg == SourcesUser()
  }

  lemma RenderedOneWellFormed(t: Token)
    requires Sound(t)
    ensures WellFormed(Rendered(t))
  {
    FlagFacts();
    hide Sources, User, SourcesUser, Legacy, Mode, IsValue, SourcesInline, ModeInline;
  }

  lemma WellFormedAppend(a: seq<string>, b: seq<string>)
    requires WellFormed(a) && WellFormed(b)
    ensures WellFormed(a + b)
  {
    hide Sources, User, SourcesUser, Legacy, Mode, IsValue, SourcesInline;
    var c := a + b;
    forall i | 0 <= i < |c|
      ensures c[i] != Legacy()
      ensures c[i] == Mode() ==> ValueAt(c, i + 1)
      ensures c[i] == Sources() ==> i + 1 < |c| && c[i + 1] == User()
      ensures SourcesInline(c[i]) ==> c[i] == SourcesUser()
    {
      if i < |a| {
        assert c[i] == a[i];
        assert i + 1 < |a| ==> c[i + 1] == a[i + 1];
      } else {
        assert c[i] == b[i - |a|];
        assert i + 1 < |c| ==> c[i + 1] == b[i - |a| + 1];
      }
    }
  }

  lemma {:induction false} RenderAllWellFormed(ts: seq<Token>)
    requires AllSound(ts)
    ensures WellFormed(RenderAll(ts))
  {
    if ts != [] {
      assert AllSound(ts[1..]) && Sound(ts[0]);
      hide Sound, Rendered, WellFormed;
      RenderAllWellFormed(ts[1..]);
      RenderedOneWellFormed(ts[0]);
      WellFormedAppend(Rendered(ts[0]), RenderAll(ts[1..]));
    }
  }

  /** Whatever the arguments, the result has the form that both passes aim at, and names
      some permission mode and some setting source. */
  lemma ResultIsWellFormed(args: seq<string>)
    ensures WellFormed(Normalized(args))
    ensures exists a :: a in Normalized(args) && NamesMode(a)
    ensures exists a :: a in Normalized(args) && NamesSources(a)
  {
    NormalizedIsRendering(args);
    ResultIsSound(args);
    RenderAllWellFormed(Result(args));
    RenderedFlags(Result(args));
  }

  lemma RenderedNames(t: Token)
    requires Sound(t)
    ensures IsMode(t) ==> exists a :: a in Rendered(t) && NamesMode(a)
    ensures IsSources(t) ==> exists a :: a in Rendered(t) && NamesSources(a)
  {
    hide Sources, User, SourcesUser, Legacy, Mode, IsValue, SourcesInline, ModeInline;
    if t.ModeFlag? || t.ModeEquals? || t.SourcesFlag? || t.SourcesEquals? {
      assert Rendered(t)[0] in Rendered(t);
    }
  }

  lemma {:induction false} RenderedFlags(ts: seq<Token>)
    requires AllSound(ts)
    ensures SetsMode(ts) ==> exists a :: a in RenderAll(ts) && NamesMode(a)
    ensures SetsSources(ts) ==> exists a :: a in RenderAll(ts) && NamesSources(a)
  {
    if ts != [] {
      assert AllSound(ts[1..]) && Sound(ts[0]);
      hide Sound, Rendered, NamesMode, NamesSources;
      RenderedFlags(ts[1..]);
      RenderedNames(ts[0]);
    }
  }

  /** The arguments that neither pass is about: kept verbatim. */
  function Kept(ts: seq<Token>): seq<Token> {
    if ts == [] then [] else KeptOne(ts[0]) + Kept(ts[1..])
  }

  function KeptOne(t: Token): seq<Token> {
    if IsMode(t) || t.Plain? then [t] else []
  }

  lemma {:induction false} KeptAppend(a: seq<Token>, b: seq<Token>)
    ensures Kept(a + b) == Kept(a) + Kept(b)
  {
    if a == [] {
      assert a + b == b;
    } else {
      hide KeptOne;
      KeptAppend(a[1..], b);
      assert (a + b)[1..] == a[1..] + b;
      Regroup(KeptOne(a[0]), Kept(a[1..]), Kept(b));
    }
  }

  lemma KeptCleanedOne(t: Token)
    ensures Kept(Cleaned(t)) == KeptOne(t)
  {
    if Cleaned(t) != [] {
      assert Cleaned(t)[1..] == [] && Kept(Cleaned(t)) == KeptOne(Cleaned(t)[0]) + [];
    }
  }

  lemma {:induction false} KeptCleaned(ts: seq<Token>)
    ensures Kept(CleanAll(ts)) == Kept(ts)
  {
    if ts != [] {
      hide Cleaned, KeptOne;
      KeptCleaned(ts[1..]);
      KeptCleanedOne(ts[0]);
      KeptAppend(Cleaned(ts[0]), CleanAll(ts[1..]));
    }
  }

  lemma KeptAppended(ts: seq<Token>)
    ensures Kept(Appended(ts)) == if SetsMode(ts) then [] else [ModeFlag(Bypass())]
  {
    hide Bypass, User;
    var s := if SetsSources(ts) then [] else [SourcesFlag(User())];
    var m := if SetsMode(ts) then [] else [ModeFlag(Bypass())];
    KeptAppend(s, m);
    assert Kept(s) == [];
    assert Kept(m) == m;
  }

  /** All other arguments survive, in order, with at most the bypass mode added at the end. */
  lemma OthersSurvive(args: seq<string>)
    ensures Kept(Tokens(Normalized(args))) ==
              Kept(Tokens(args)) + (if SetsMode(Tokens(args)) then [] else [ModeFlag(Bypass())])
  {
    hide Tokens, Kept, RenderAll, CleanAll, Appended, Normalized, SetsMode, SetsSources, AllSound;
    NormalizedIsRendering(args);
    ResultIsSound(args);
    RenderedReadsBack(Result(args));
    KeptCleaned(Result(args));
    KeptAppend(Tokens(args), Appended(Tokens(args)));
    KeptAppended(Tokens(args));
  }

  // ----- the reading is the only one -----

  /** The arguments that a token was read from. */
  function Spelled(t: Token): seq<string> {
    match t
    case LegacyFlag => [Legacy()]
    case BareMode => [Mode()]
    case BareSources => [Sources()]
    case ModeFlag(value) => [Mode(), value]
    case ModeEquals(arg) => [arg]
    case SourcesFlag(value) => [Sources(), value]
    case SourcesEquals(arg) => [arg]
    case Plain(arg) => [arg]
  }

  function SpellAll(ts: seq<Token>): seq<string> {
    if ts == [] then [] else Spelled(ts[0]) + SpellAll(ts[1..])
  }

  /** A flag is bare only when no value follows it. */
  ghost predicate Greedy(ts: seq<Token>) {
    ts != [] ==> ((ts[0].BareMode? || ts[0].BareSources?) ==> !ValueAt(SpellAll(ts[1..]), 0)) && Greedy(ts[1..])
  }

  lemma {:induction false} TokensSpell(args: seq<string>)
    ensures SpellAll(Tokens(args)) == args && Greedy(Tokens(args))
    decreases |args|
  {
    if args != [] {
      FirstTokenSpells(args);
      var n := |Spelled(Tokens(args)[0])|;
      TokensSpell(args[n..]);
      hide Tokens, Spelled, ValueAt;
      assert Tokens(args)[1..] == Tokens(args[n..]);
    }
  }

  lemma FirstTokenSpells(args: seq<string>)
    requires args != []
    ensures Tokens(args) != []
    ensures var t := Tokens(args)[0];
            var n := |Spelled(t)|;
            && 1 <= n <= |args| && args == Spelled(t) + args[n..] && Tokens(args) == [t] + Tokens(args[n..])
            && (t.BareMode? || t.BareSources? ==> !ValueAt(args[n..], 0))
  {
    FlagFacts();
    hide Sources, User, SourcesUser, Legacy, Mode, IsValue, SourcesInline, ModeInline;
    if |args| > 1 { assert args[1..][0] == args[1]; }
  }

  lemma ReadSpelled(t: Token, x: seq<string>)
    requires Sound(t) && (t.BareMode? || t.BareSources? ==> !ValueAt(x, 0))
    ensures Tokens(Spelled(t) + x) == [t] + Tokens(x)
  {
    FlagFacts();
    hide Sources, User, SourcesUser, Legacy, Mode, IsValue, SourcesInline, ModeInline;
    var args := Spelled(t) + x;
    if t.ModeFlag? || t.SourcesFlag? {
      assert args[1] == Spelled(t)[1] && args[2..] == x;
    } else {
      assert args[1..] == x;
      if x != [] { assert args[1] == x[0]; }
    }
  }

  /** Any reading that spells the arguments, with sound tokens and no flag left bare before a
      value, is the one that the theorems speak of. */
  lemma {:induction false} ReadingIsUnique(ts: seq<Token>)
    requires AllSound(ts) && Greedy(ts)
    ensures Tokens(SpellAll(ts)) == ts
  {
    if ts == [] {
      assert Tokens([]) == [];
    } else {
      assert AllSound(ts[1..]) && Sound(ts[0]);
      hide Sound, Tokens, Spelled, ValueAt;
      ReadingIsUnique(ts[1..]);
      ReadSpelled(ts[0], SpellAll(ts[1..]));
    }
  }

  /** The texts themselves. */
  lemma FlagTexts()
    ensures Legacy() == "--dangerously-skip-permissions" && Mode() == "--permission-mode" && Bypass() == "bypassPermissions"
    ensures Sources() == "--setting-sources" && User() == "user" && SourcesUser() == "--setting-sources=user"
  {
  }

  /** No argument that either pass is about. */
  ghost predicate OnlyPlain(args: seq<string>) {
    forall a :: a in args ==> Sound(Plain(a))
  }

  lemma {:induction false} PlainTokens(args: seq<string>)
    requires OnlyPlain(args)
    ensures RenderAll(Tokens(args)) == args && !SetsMode(Tokens(args)) && !SetsSources(Tokens(args))
  {
    if args != [] {
      assert args[0] in args && args == [args[0]] + args[1..];
      PlainTokens(args[1..]);
      ReadSpelled(Plain(args[0]), args[1..]);
      hide Tokens, Sound;
      assert (Spelled(Plain(args[0])) + args[1..]) == args;
    }
  }

  /** Arguments that neither pass is about are kept as they are, with the two defaults behind them. */
  lemma PlainArgsAreKept(args: seq<string>)
    requires OnlyPlain(args)
    ensures Normalized(args) == args + ["--setting-sources", "user"] + ["--permission-mode", "bypassPermissions"]
  {
    NormalizedIsRendering(args);
    PlainTokens(args);
    var ts := Tokens(args);
    var s, m := [SourcesFlag(User())], [ModeFlag(Bypass())];
    FlagTexts();
    hide Tokens, Normalized, Sources, User, Mode, Bypass;
    RenderAppend(ts, s + m);
    RenderAppend(s, m);
    assert RenderAll(s) == Rendered(s[0]) + RenderAll(s[1..]) && RenderAll(m) == Rendered(m[0]) + RenderAll(m[1..]);
    assert RenderAll(s) == [Sources(), User()] && RenderAll(m) == [Mode(), Bypass()];
    Regroup(args, RenderAll(s), RenderAll(m));
  }
}
