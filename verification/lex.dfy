/**
  The generic maximal-munch tokenizer (src/lex.h, src/lex.c).

  A lexer holds registered patterns and, in a parallel sequence, the token tag
  of each. Tokenizing runs one automaton simulation per pattern in lockstep,
  remembers the highest index at which some simulation accepted (and, at that
  index, the first-registered such pattern), and stops once every simulation
  has rejected. The automaton engine is external: a compiled pattern is seen
  only through the simulation state it reaches after each prefix.
*/
module Tokenizer {
  import opened Wrappers

  /** The simulation states reported by the automaton engine. */
  datatype SimState = Rejected | NotAccepting | Accepting | Accepted

  /** lex_step treats ACCEPTING and ACCEPTED alike. */
  predicate IsAccepting(s: SimState) {
    s == Accepting || s == Accepted
  }

  /** A compiled pattern: the state a fresh simulation reaches after reading a prefix. */
  type Pattern = string -> SimState

  /** Once a simulation has rejected, no further input revives it. */
  ghost predicate Absorbing(p: Pattern) {
    forall w: string, c: char {:trigger p(w + [c])} :: p(w) == Rejected ==> p(w + [c]) == Rejected
  }

  /** smb_lex: patterns and token tags, registered in parallel. */
  datatype Lexer<T> = Lexer(patterns: seq<Pattern>, tokens: seq<T>)

  /** Entry i of tokens is the tag registered with pattern i. */
  predicate Valid<T>(lex: Lexer<T>) {
    |lex.patterns| == |lex.tokens|
  }

  /** lex_init / lex_create: no registrations. */
  function Create<T>(): (lex: Lexer<T>)
    ensures Valid(lex) && |lex.patterns| == 0
  {
    Lexer([], [])
  }

  /** lex_add_token: register one pattern with its tag, after all earlier ones. */
  function AddToken<T>(lex: Lexer<T>, p: Pattern, token: T): (r: Lexer<T>)
    ensures |r.patterns| == |lex.patterns| + 1 && |r.tokens| == |lex.tokens| + 1
    ensures r.patterns[..|lex.patterns|] == lex.patterns && r.patterns[|lex.patterns|] == p
    ensures r.tokens[..|lex.tokens|] == lex.tokens && r.tokens[|lex.tokens|] == token
    ensures Valid(lex) ==> Valid(r)
  {
    Lexer(lex.patterns + [p], lex.tokens + [token])
  }

  /** smb_lex_sim: the input read so far, the current state of every simulation, and the match bookkeeping. */
  datatype Sim = Sim(
    consumed: string,
    states: seq<SimState>,
    lastMatchedPattern: int,
    lastMatchedIndex: int,
    lastIndex: int,
    finished: bool)

  /** The state of every pattern's simulation after reading w. */
  function StatesAt(patterns: seq<Pattern>, w: string): (r: seq<SimState>)
    ensures |r| == |patterns|
    ensures forall i :: 0 <= i < |patterns| ==> r[i] == patterns[i](w)
  {
    seq(|patterns|, i requires 0 <= i < |patterns| => patterns[i](w))
  }

  /** Every simulation has rejected w. */
  predicate AllRejected(states: seq<SimState>) {
    forall i :: 0 <= i < |states| ==> states[i] == Rejected
  }

  /** The first index at or after i whose state accepts, or -1. */
  function FirstAcceptingFrom(states: seq<SimState>, i: nat): (r: int)
    decreases |states| - i
    ensures r == -1 || (i <= r < |states| && IsAccepting(states[r]))
    ensures r == -1 <==> forall k :: i <= k < |states| ==> !IsAccepting(states[k])
    ensures r >= 0 ==> forall k :: i <= k < r ==> !IsAccepting(states[k])
  {
    if i >= |states| then -1
    else if IsAccepting(states[i]) then i
    else FirstAcceptingFrom(states, i + 1)
  }

  /** The earliest-registered accepting pattern, or -1 when none accepts. */
  function FirstAccepting(states: seq<SimState>): int {
    FirstAcceptingFrom(states, 0)
  }

  /** FirstAccepting is the least accepting index. */
  lemma FirstAcceptingIs(states: seq<SimState>, k: nat)
    requires k < |states| && IsAccepting(states[k])
    requires forall i :: 0 <= i < k ==> !IsAccepting(states[i])
    ensures FirstAccepting(states) == k
  {
  }

  /** The bookkeeping invariant of smb_lex_sim (lex.h:32-35). */
  predicate SimValid<T>(lex: Lexer<T>, sim: Sim) {
    && |sim.states| == |lex.patterns|
    && sim.lastIndex == |sim.consumed| - 1
    && -1 <= sim.lastMatchedIndex <= sim.lastIndex
    && (sim.lastMatchedPattern == -1 <==> sim.lastMatchedIndex == -1)
    && -1 <= sim.lastMatchedPattern < |lex.patterns|
  }

  /** lex_start: one fresh simulation per pattern, all counters -1, not finished. */
  function Start<T>(lex: Lexer<T>): (sim: Sim)
    ensures |sim.states| == |lex.patterns| && sim.consumed == []
    ensures sim.lastMatchedPattern == -1 && sim.lastMatchedIndex == -1 && sim.lastIndex == -1
    ensures !sim.finished
    ensures SimValid(lex, sim)
  {
    Sim([], StatesAt(lex.patterns, []), -1, -1, -1, false)
  }

  /**
    The loop of lex_step over the simulations, from index i on: an accepting
    simulation is recorded only when nothing has been recorded at this index
    yet, and the all-rejected flag is cleared by any simulation still alive.
  */
  function Scan(states: seq<SimState>, i: nat, lmp: int, lmi: int, idx: int, allRejected: bool): (r: (int, int, bool))
    requires lmi <= idx
    decreases |states| - i
    ensures r.1 <= idx
    ensures r.2 <==> allRejected && forall k :: i <= k < |states| ==> states[k] == Rejected
    ensures lmi < idx && FirstAcceptingFrom(states, i) >= 0 ==> r.0 == FirstAcceptingFrom(states, i) && r.1 == idx
    ensures lmi == idx || FirstAcceptingFrom(states, i) == -1 ==> r.0 == lmp && r.1 == lmi
  {
    if i >= |states| then (lmp, lmi, allRejected)
    else if IsAccepting(states[i]) then
      if lmi < idx then Scan(states, i + 1, i, idx, idx, false)
      else Scan(states, i + 1, lmp, lmi, idx, false)
    else if states[i] == NotAccepting then Scan(states, i + 1, lmp, lmi, idx, false)
    else Scan(states, i + 1, lmp, lmi, idx, allRejected)
  }

  /** lex_step: feed one character to every simulation. */
  function Step<T>(lex: Lexer<T>, sim: Sim, c: char): (r: Sim)
    requires sim.lastMatchedIndex <= sim.lastIndex
    ensures r.consumed == sim.consumed + [c]
    ensures r.lastIndex == sim.lastIndex + 1
    ensures r.states == StatesAt(lex.patterns, r.consumed)
    ensures r.finished <==> AllRejected(r.states)
    ensures FirstAccepting(r.states) >= 0 ==>
              r.lastMatchedPattern == FirstAccepting(r.states) && r.lastMatchedIndex == r.lastIndex
    ensures FirstAccepting(r.states) == -1 ==>
              r.lastMatchedPattern == sim.lastMatchedPattern && r.lastMatchedIndex == sim.lastMatchedIndex
  {
    var w := sim.consumed + [c];
    var idx := sim.lastIndex + 1;
    var states := StatesAt(lex.patterns, w);
    var scanned := Scan(states, 0, sim.lastMatchedPattern, sim.lastMatchedIndex, idx, true);
    Sim(w, states, scanned.0, scanned.1, idx, scanned.2)
  }

  /** lex_step keeps the bookkeeping invariant. */
  lemma StepKeepsValid<T>(lex: Lexer<T>, sim: Sim, c: char)
    requires SimValid(lex, sim)
    ensures SimValid(lex, Step(lex, sim, c))
  {
  }

  /** lex_get_token: the recorded pattern's tag, only once finished with a match. */
  function GetToken<T>(lex: Lexer<T>, sim: Sim): (r: Option<T>)
    requires Valid(lex) && SimValid(lex, sim)
    ensures r.Some? <==> sim.finished && sim.lastMatchedPattern >= 0
    ensures r.Some? ==> r.value == lex.tokens[sim.lastMatchedPattern]
  {
    if !sim.finished || sim.lastMatchedPattern < 0 then None
    else Some(lex.tokens[sim.lastMatchedPattern])
  }

  /** lex_get_length: -1 while running, otherwise the matched length (0 when nothing matched). */
  function GetLength(sim: Sim): (r: int)
    ensures !sim.finished ==> r == -1
    ensures sim.finished ==> r == sim.lastMatchedIndex + 1
  {
    if !sim.finished then -1 else sim.lastMatchedIndex + 1
  }

  /** Every pattern rejects w. */
  ghost predicate AllReject(patterns: seq<Pattern>, w: string) {
    forall i :: 0 <= i < |patterns| ==> patterns[i](w) == Rejected
  }

  /** When every pattern rejects w, none accepts it. */
  lemma NoneAccepting(patterns: seq<Pattern>, w: string)
    requires AllReject(patterns, w)
    ensures FirstAccepting(StatesAt(patterns, w)) == -1
  {
  }

  /**
    What a simulation driven over a prefix of input knows: the recorded match
    is the longest accepted prefix read so far, with the earliest-registered
    pattern accepting it, and it is finished exactly when all have rejected.
  */
  ghost predicate Tracks<T>(lex: Lexer<T>, sim: Sim, input: string) {
    && Valid(lex)
    && SimValid(lex, sim)
    && |sim.consumed| <= |input| && sim.consumed == input[..|sim.consumed|]
    && (sim.finished <==> |sim.consumed| > 0 && AllReject(lex.patterns, sim.consumed))
    && (forall j :: sim.lastMatchedIndex + 1 < j <= |sim.consumed| ==>
          FirstAccepting(StatesAt(lex.patterns, input[..j])) == -1)
    && (sim.lastMatchedIndex >= 0 ==>
          sim.lastMatchedPattern == FirstAccepting(StatesAt(lex.patterns, input[..sim.lastMatchedIndex + 1])))
  }

  lemma StepTracks<T>(lex: Lexer<T>, sim: Sim, input: string)
    requires Tracks(lex, sim, input) && |sim.consumed| < |input|
    ensures Tracks(lex, Step(lex, sim, input[|sim.consumed|]), input)
  {
    StepKeepsValid(lex, sim, input[|sim.consumed|]);
    StepConsumes(lex, sim, input);
    StepNoLater(lex, sim, input);
    StepRecords(lex, sim, input);
  }

  /** A step reads the next character of the input and finishes exactly when every pattern rejects. */
  lemma StepConsumes<T>(lex: Lexer<T>, sim: Sim, input: string)
    requires Tracks(lex, sim, input) && |sim.consumed| < |input|
    ensures var r := Step(lex, sim, input[|sim.consumed|]);
            && r.consumed == input[..|sim.consumed| + 1]
            && (r.finished <==> AllReject(lex.patterns, r.consumed))
  {
    var k := |sim.consumed|;
    assert input[..k] + [input[k]] == input[..k + 1];
  }

  /** After a step, no prefix longer than the recorded match and within what was read is accepted. */
  lemma StepNoLater<T>(lex: Lexer<T>, sim: Sim, input: string)
    requires Tracks(lex, sim, input) && |sim.consumed| < |input|
    ensures var r := Step(lex, sim, input[|sim.consumed|]);
            forall j :: r.lastMatchedIndex + 1 < j <= |sim.consumed| + 1 ==>
              FirstAccepting(StatesAt(lex.patterns, input[..j])) == -1
  {
    var k := |sim.consumed|;
    var r := Step(lex, sim, input[k]);
    StepConsumes(lex, sim, input);
    if FirstAccepting(r.states) == -1 {
      forall j | r.lastMatchedIndex + 1 < j <= k + 1
        ensures FirstAccepting(StatesAt(lex.patterns, input[..j])) == -1
      {
        if j == k + 1 {
          assert input[..j] == r.consumed;
        }
      }
    }
  }

  /** After a step, the recorded pattern is the first one accepting the recorded match. */
  lemma StepRecords<T>(lex: Lexer<T>, sim: Sim, input: string)
    requires SimValid(lex, sim) && |sim.consumed| < |input| && sim.consumed == input[..|sim.consumed|]
    requires sim.lastMatchedIndex >= 0 ==>
               sim.lastMatchedPattern == FirstAccepting(StatesAt(lex.patterns, input[..sim.lastMatchedIndex + 1]))
    ensures var r := Step(lex, sim, input[|sim.consumed|]);
            r.lastMatchedIndex >= 0 ==>
              r.lastMatchedPattern == FirstAccepting(StatesAt(lex.patterns, input[..r.lastMatchedIndex + 1]))
  {
    var k := |sim.consumed|;
    var r := Step(lex, sim, input[k]);
    if FirstAccepting(r.states) != -1 {
      assert input[..k] + [input[k]] == input[..k + 1];
      assert r.states == StatesAt(lex.patterns, input[..k + 1]);
    }
  }

  /** The loop of lex_yylex: step until finished; None when the input runs out first. */
  function Drive<T>(lex: Lexer<T>, sim: Sim, input: string): (r: Option<Sim>)
    requires Tracks(lex, sim, input)
    decreases |input| - |sim.consumed|
    ensures r.Some? ==> Tracks(lex, r.value, input) && r.value.finished
    ensures r.None? <==> forall k :: |sim.consumed| <= k <= |input| ==> !(k > 0 && AllReject(lex.patterns, input[..k]))
  {
    if sim.finished then Some(sim)
    else if |sim.consumed| >= |input| then None
    else
      StepTracks(lex, sim, input);
      Drive(lex, Step(lex, sim, input[|sim.consumed|]), input)
  }

  /** The result of lex_yylex: the token tag (null when nothing matched) and the match length. */
  datatype Match<T> = Match(token: Option<T>, length: int)

  /**
    lex_yylex over an in-memory input. None stands for the case where the
    input ends before every simulation has rejected (the source would read on
    past it).
  */
  function Yylex<T>(lex: Lexer<T>, input: string): (r: Option<Match<T>>)
    requires Valid(lex)
    ensures r.Some? ==> 0 <= r.value.length <= |input|
    ensures r.Some? ==> (r.value.token.Some? <==> r.value.length > 0)
    ensures r.Some? && r.value.length > 0 ==>
              var first := FirstAccepting(StatesAt(lex.patterns, input[..r.value.length]));
              0 <= first < |lex.tokens| && r.value.token == Some(lex.tokens[first])
  {
    var start := Start(lex);
    assert Tracks(lex, start, input);
    match Drive(lex, start, input)
    case None => None
    case Some(sim) => Some(Match(GetToken(lex, sim), GetLength(sim)))
  }

  /** A rejected simulation stays rejected over any continuation. */
  lemma {:induction false} RejectedStays(p: Pattern, w: string, u: string)
    requires Absorbing(p) && p(w) == Rejected
    ensures p(w + u) == Rejected
    decreases |u|
  {
    if u != [] {
      var v := u[..|u| - 1];
      var c := u[|u| - 1];
      RejectedStays(p, w, v);
      var wv := w + v;
      assert p(wv + [c]) == Rejected;
      assert u == v + [c];
      assert w + u == wv + [c];
    } else {
      assert w + u == w;
    }
  }

  /**
    Longest match, earliest registration wins ties: when every simulation
    keeps rejecting once it has rejected, lex_yylex returns the longest prefix
    any pattern accepts, with the tag of the first pattern accepting it.
  */
  lemma YylexLongestMatch<T>(lex: Lexer<T>, input: string)
    requires Valid(lex)
    requires forall i :: 0 <= i < |lex.patterns| ==> Absorbing(lex.patterns[i])
    requires Yylex(lex, input).Some?
    ensures forall j :: Yylex(lex, input).value.length < j <= |input| ==>
              FirstAccepting(StatesAt(lex.patterns, input[..j])) == -1
    ensures Yylex(lex, input).value.length > 0 <==>
              exists j :: 0 < j <= |input| && FirstAccepting(StatesAt(lex.patterns, input[..j])) >= 0
  {
    var start := Start(lex);
    assert Tracks(lex, start, input);
    var sim := Drive(lex, start, input).value;
    var m := Yylex(lex, input).value;
    var k := |sim.consumed|;
    assert m.length == sim.lastMatchedIndex + 1;
    forall j | m.length < j <= |input|
      ensures FirstAccepting(StatesAt(lex.patterns, input[..j])) == -1
    {
      if j > k {
        forall i | 0 <= i < |lex.patterns|
          ensures lex.patterns[i](input[..j]) == Rejected
        {
          RejectedStays(lex.patterns[i], input[..k], input[k..j]);
          assert input[..k] + input[k..j] == input[..j];
        }
      }
    }
    if m.length == 0 {
      forall j | 0 < j <= |input|
        ensures FirstAccepting(StatesAt(lex.patterns, input[..j])) == -1
      {
      }
    }
  }

  /** lex_yylex finishes exactly when every pattern rejects some non-empty prefix of the input. */
  lemma YylexSomeIff<T>(lex: Lexer<T>, input: string)
    requires Valid(lex)
    ensures Yylex(lex, input).Some? <==> exists k :: 0 < k <= |input| && AllReject(lex.patterns, input[..k])
  {
    assert Tracks(lex, Start(lex), input);
  }

  /** In particular it finishes when every pattern rejects the whole input. */
  lemma YylexFinishes<T>(lex: Lexer<T>, input: string)
    requires Valid(lex) && |input| > 0 && AllReject(lex.patterns, input)
    ensures Yylex(lex, input).Some?
  {
    YylexSomeIff(lex, input);
    assert input[..|input|] == input;
  }

  /** lex_load's status. */
  datatype LoadStatus = Success | IndexError

  /** Lines whose first character is '#' are comments. */
  predicate IsComment(line: string) {
    |line| > 0 && line[0] == '#'
  }

  /** The index of the first tab of line, or |line| when there is none. */
  function FirstTab(line: string): (r: nat)
    ensures r <= |line|
    ensures r < |line| ==> line[r] == '\t'
    ensures forall k :: 0 <= k < r ==> line[k] != '\t'
  {
    if |line| == 0 then 0
    else if line[0] == '\t' then 0
    else
      1 + FirstTab(line[1..])
  }

  /**
    lex_load_line: split at the first tab into pattern text and token text;
    compile stands for the external regular-expression compiler. A line
    without a tab is an index error and registers nothing.
  */
  function LoadLine(lex: Lexer<string>, line: string, compile: string -> Pattern): (r: Result<Lexer<string>, LoadStatus>)
    ensures r.Err? <==> '\t' !in line
    ensures r.Err? ==> r.error == IndexError
    ensures r.Ok? ==> FirstTab(line) < |line| && line[FirstTab(line)] == '\t'
    ensures r.Ok? ==> r.value.tokens == lex.tokens + [line[FirstTab(line) + 1..]]
    ensures r.Ok? ==> r.value.patterns == lex.patterns + [compile(line[..FirstTab(line)])]
  {
    var i := FirstTab(line);
    if i == |line| then Err(IndexError)
    else Ok(AddToken(lex, compile(line[..i]), line[i + 1..]))
  }

  /** LoadLine splits "pattern<TAB>token" back into its two parts when the pattern has no tab. */
  lemma LoadLineSplits(lex: Lexer<string>, pattern: string, token: string, compile: string -> Pattern)
    requires '\t' !in pattern
    ensures var r := LoadLine(lex, pattern + "\t" + token, compile);
            r.Ok? && r.value.tokens == lex.tokens + [token] &&
            r.value.patterns == lex.patterns + [compile(pattern)]
  {
    var line := pattern + "\t" + token;
    var i := FirstTab(line);
    forall k | 0 <= k < |pattern|
      ensures line[k] == pattern[k] && line[k] != '\t'
    {
    }
    assert line[|pattern|] == '\t';
    assert i == |pattern|;
    assert line[..i] == pattern;
    assert line[i + 1..] == token;
  }

  /** The lines lex_load registers: every line that is not a comment. */
  function Entries(lines: seq<string>): (r: seq<string>)
    ensures |r| <= |lines|
    ensures forall k :: 0 <= k < |r| ==> r[k] in lines && !IsComment(r[k])
    ensures forall k :: 0 <= k < |lines| && !IsComment(lines[k]) ==> lines[k] in r
  {
    if |lines| == 0 then []
    else if IsComment(lines[0]) then Entries(lines[1..])
    else [lines[0]] + Entries(lines[1..])
  }

  /** Entries keeps the order of the lines: the entries of two blocks of lines are those of each, in turn. */
  lemma {:induction false} EntriesAppend(a: seq<string>, b: seq<string>)
    ensures Entries(a + b) == Entries(a) + Entries(b)
    decreases |a|
  {
    if |a| > 0 {
      assert (a + b)[1..] == a[1..] + b;
      EntriesAppend(a[1..], b);
    } else {
      assert a + b == b;
    }
  }

  /** The index of the first entry without a tab, or |entries| when every entry has one. */
  function FirstBad(entries: seq<string>): (r: nat)
    ensures r <= |entries|
    ensures r < |entries| ==> '\t' !in entries[r]
    ensures forall k :: 0 <= k < r ==> '\t' in entries[k]
  {
    if |entries| == 0 then 0
    else if '\t' !in entries[0] then 0
    else 1 + FirstBad(entries[1..])
  }

  /** The text after the first tab of line (empty when there is none). */
  function TokenText(line: string): string {
    var i := FirstTab(line);
    if i < |line| then line[i + 1..] else ""
  }

  /** The text before the first tab of line: the regular expression it registers. */
  function PatternText(line: string): string {
    line[..FirstTab(line)]
  }

  /** The compiled pattern each entry registers. */
  function Compiled(entries: seq<string>, compile: string -> Pattern): (r: seq<Pattern>)
    ensures |r| == |entries|
    ensures forall k :: 0 <= k < |entries| ==> r[k] == compile(PatternText(entries[k]))
  {
    if |entries| == 0 then []
    else [compile(PatternText(entries[0]))] + Compiled(entries[1..], compile)
  }

  /** The token text each entry registers. */
  function TokenTexts(entries: seq<string>): (r: seq<string>)
    ensures |r| == |entries|
  {
    if |entries| == 0 then []
    else [TokenText(entries[0])] + TokenTexts(entries[1..])
  }

  /** The entries of lines that start with a tab-holding entry: that entry, then the entries of the rest. */
  lemma EntriesStep(lines: seq<string>, compile: string -> Pattern)
    requires |lines| > 0 && !IsComment(lines[0]) && '\t' in lines[0]
    ensures var es := Entries(lines);
            var rest := Entries(lines[1..]);
            && FirstBad(es) == 1 + FirstBad(rest)
            && TokenTexts(es[..FirstBad(es)]) == [TokenText(lines[0])] + TokenTexts(rest[..FirstBad(rest)])
            && Compiled(es[..FirstBad(es)], compile) == [compile(PatternText(lines[0]))] + Compiled(rest[..FirstBad(rest)], compile)
  {
    EntriesCons(lines);
    RegisteredStep(lines[0], Entries(lines[1..]), compile);
  }

  /** A line that is not a comment is the first entry, ahead of those of the rest. */
  lemma EntriesCons(lines: seq<string>)
    requires |lines| > 0 && !IsComment(lines[0])
    ensures Entries(lines) == [lines[0]] + Entries(lines[1..])
  {
  }

  /** A comment line registers nothing. */
  lemma EntriesSkip(lines: seq<string>)
    requires |lines| > 0 && IsComment(lines[0])
    ensures Entries(lines) == Entries(lines[1..])
  {
  }

  /** An entry without a tab in front of others is the first bad one, and nothing before it registers. */
  lemma FirstBadHead(x: string, rest: seq<string>)
    requires '\t' !in x
    ensures FirstBad([x] + rest) == 0 && ([x] + rest)[..0] == []
  {
  }

  /** A tab-holding entry in front of others registers first, ahead of what the others register. */
  lemma RegisteredStep(x: string, rest: seq<string>, compile: string -> Pattern)
    requires '\t' in x
    ensures var es := [x] + rest;
            && FirstBad(es) == 1 + FirstBad(rest)
            && TokenTexts(es[..FirstBad(es)]) == [TokenText(x)] + TokenTexts(rest[..FirstBad(rest)])
            && Compiled(es[..FirstBad(es)], compile) == [compile(PatternText(x))] + Compiled(rest[..FirstBad(rest)], compile)
  {
    FirstBadCons(x, rest);
    PrefixCons(x, rest, FirstBad(rest));
    RegisteredCons(x, rest[..FirstBad(rest)], compile);
  }

  /** A prefix of x in front of rest is x in front of a prefix of rest. */
  lemma PrefixCons<T>(x: T, rest: seq<T>, n: nat)
    requires n <= |rest|
    ensures ([x] + rest)[..n + 1] == [x] + rest[..n]
  {
  }

  /** An entry with a tab in front of others moves the first bad one back by one. */
  lemma FirstBadCons(x: string, rest: seq<string>)
    requires '\t' in x
    ensures FirstBad([x] + rest) == 1 + FirstBad(rest)
  {
    assert ([x] + rest)[1..] == rest;
  }

  /** What an entry in front of others registers comes first. */
  lemma RegisteredCons(x: string, pre: seq<string>, compile: string -> Pattern)
    ensures TokenTexts([x] + pre) == [TokenText(x)] + TokenTexts(pre)
    ensures Compiled([x] + pre, compile) == [compile(PatternText(x))] + Compiled(pre, compile)
  {
    assert ([x] + pre)[1..] == pre;
  }

  /**
    lex_load over the lines of the pattern file (split_linesw is external):
    comments are skipped and loading stops at the first line without a tab,
    keeping what the earlier lines registered.
  */
  function Load(lex: Lexer<string>, lines: seq<string>, compile: string -> Pattern): (r: (Lexer<string>, LoadStatus))
    decreases |lines|
    ensures Valid(lex) ==> Valid(r.0)
    ensures r.1 == Success <==> FirstBad(Entries(lines)) == |Entries(lines)|
    ensures r.0.tokens == lex.tokens + TokenTexts(Entries(lines)[..FirstBad(Entries(lines))])
    ensures r.0.patterns == lex.patterns + Compiled(Entries(lines)[..FirstBad(Entries(lines))], compile)
  {
    if |lines| == 0 then (lex, Success)
    else if IsComment(lines[0]) then EntriesSkip(lines); Load(lex, lines[1..], compile)
    else
      match LoadLine(lex, lines[0], compile)
      case Err(e) =>
        EntriesCons(lines);
        FirstBadHead(lines[0], Entries(lines[1..]));
        (lex, e)
      case Ok(next) =>
        assert next.patterns == lex.patterns + [compile(PatternText(lines[0]))];
        assert next.tokens == lex.tokens + [TokenText(lines[0])];
        var r := Load(next, lines[1..], compile);
        EntriesStep(lines, compile);
        r
  }
}
