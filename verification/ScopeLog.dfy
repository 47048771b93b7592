/**
 The log and its scope objects: a StackLogger pushes its name when it is built
 and pops when it is destroyed, so that a program's scopes nest like a tree.
 */
module ScopeLogSpec {
  import opened Options

  datatype Level = Fatal | Error | Warn | Info | Debug

  function Rank(l: Level): nat {
    match l case Fatal => 0 case Error => 1 case Warn => 2 case Info => 3 case Debug => 4
  }

  datatype Line = Line(level: Level, message: string)

  datatype State = State(threshold: Level, stack: seq<string>, lines: seq<Line>)

  const BEGIN := " BEGIN"
  const END := " END"

  datatype Event = Begin(name: string) | End(name: string)

  function Message(e: Event): string { match e case Begin(n) => n + BEGIN case End(n) => n + END }

  function Log(s: State, level: Level, message: string): State {
    if Rank(level) <= Rank(s.threshold) then s.(lines := s.lines + [Line(level, message)]) else s
  }

  function Push(s: State, input: string): State {
    if input == "" then s
    else var s' := Log(s, Debug, Message(Begin(input))); s'.(stack := s'.stack + [input])
  }

  function Pop(s: State): (State, string) {
    if s.stack == [] then (s, "")
    else
      var top := s.stack[|s.stack| - 1];
      (Log(s.(stack := s.stack[..|s.stack| - 1]), Debug, Message(End(top))), top)
  }

  /** The scopes a program enters one after the other, each with those inside it. */
  datatype Scopes = Nil | Scope(name: string, inner: Scopes, rest: Scopes)

  /** Constructor, body, destructor, and then the following scopes. */
  function Run(s: State, f: Scopes): State
    decreases f
  {
    match f
    case Nil => s
    case Scope(name, inner, rest) => Run(Pop(Run(Push(s, name), inner)).0, rest)
  }

  /** How many scopes have an empty name: their constructor pushes nothing, their destructor pops all the same. */
  function Unnamed(f: Scopes): nat {
    match f
    case Nil => 0
    case Scope(name, inner, rest) => (if name == "" then 1 else 0) + Unnamed(inner) + Unnamed(rest)
  }

  function DropLast(stack: seq<string>, k: nat): seq<string> { if k >= |stack| then [] else stack[..|stack| - k] }

  lemma DropTwice(stack: seq<string>, j: nat, k: nat)
    ensures DropLast(DropLast(stack, j), k) == DropLast(stack, j + k)
  {
  }

  lemma PushEffect(s: State, name: string)
    ensures var s' := Push(s, name);
            && s'.threshold == s.threshold
            && s'.stack == (if name == "" then s.stack else s.stack + [name])
            && (name != "" && s.threshold == Debug ==> s'.lines == s.lines + [Line(Debug, Message(Begin(name)))])
            && (s.threshold != Debug ==> s'.lines == s.lines)
  {
  }

  lemma PopEffect(s: State)
    ensures var s' := Pop(s).0;
            && s'.threshold == s.threshold
            && s'.stack == DropLast(s.stack, 1)
            && (s.stack != [] && s.threshold == Debug ==>
                  s'.lines == s.lines + [Line(Debug, Message(End(s.stack[|s.stack| - 1])))])
            && (s.threshold != Debug ==> s'.lines == s.lines)
  {
  }

  /** The stack after one scope of which the inside is known to drop `k` entries. */
  lemma ScopeStack(stack: seq<string>, name: string, k: nat)
    ensures var pushed := if name == "" then stack else stack + [name];
            DropLast(DropLast(pushed, k), 1) == DropLast(stack, k + if name == "" then 1 else 0)
  {
  }

  lemma ScopeThenRest(stack: seq<string>, name: string, j: nat, k: nat,
                      s1: seq<string>, s2: seq<string>, s3: seq<string>, s4: seq<string>)
    requires s1 == (if name == "" then stack else stack + [name])
    requires s2 == DropLast(s1, j) && s3 == DropLast(s2, 1) && s4 == DropLast(s3, k)
    ensures s4 == DropLast(stack, (if name == "" then 1 else 0) + j + k)
  {
    ScopeStack(stack, name, j);
    DropTwice(stack, (if name == "" then 1 else 0) + j, k);
  }

  /** Each unnamed scope costs the surrounding program one entry of its stack, as long as there is one. */
  lemma {:induction false} StackAfter(s: State, f: Scopes)
    ensures Run(s, f).stack == DropLast(s.stack, Unnamed(f))
    ensures Run(s, f).threshold == s.threshold
    decreases f
  {
    match f
    case Nil =>
    case Scope(name, inner, rest) =>
      var s1 := Push(s, name);
      var s2 := Run(s1, inner);
      var s3 := Pop(s2).0;
      PushEffect(s, name);
      StackAfter(s1, inner);
      PopEffect(s2);
      StackAfter(s3, rest);
      ScopeThenRest(s.stack, name, Unnamed(inner), Unnamed(rest), s1.stack, s2.stack, s3.stack, Run(s3, rest).stack);
  }

  /** The stack is restored exactly when every scope is named, or there was nothing on it to lose. */
  lemma StackRestoredExactly(s: State, f: Scopes)
    ensures Run(s, f).stack == s.stack <==> Unnamed(f) == 0 || s.stack == []
  {
    StackAfter(s, f);
  }

  // ---------------------------------------------------------------------
  // The emitted lines
  // ---------------------------------------------------------------------

  predicate EndsWith(m: string, suffix: string) { |m| >= |suffix| && m[|m| - |suffix|..] == suffix }

  /** The levels that each threshold lets through. */
  function Written(threshold: Level): set<Level> {
    match threshold
    case Fatal => {Fatal}
    case Error => {Fatal, Error}
    case Warn => {Fatal, Error, Warn}
    case Info => {Fatal, Error, Warn, Info}
    case Debug => {Fatal, Error, Warn, Info, Debug}
  }

  /** A line is appended for those levels and no other, and nothing else changes. */
  lemma LogWrites(s: State, level: Level, message: string)
    ensures Log(s, level, message)
            == s.(lines := s.lines + if level in Written(s.threshold) then [Line(level, message)] else [])
  {
    assert s.lines + [] == s.lines;
  }

  /** What a reader of the log recognises in a line. */
  function EventOf(m: string): Option<Event> {
    if EndsWith(m, BEGIN) then Some(Begin(m[..|m| - |BEGIN|]))
    else if EndsWith(m, END) then Some(End(m[..|m| - |END|]))
    else None
  }

  lemma EventOfMessage(e: Event)
    ensures EventOf(Message(e)) == Some(e)
  {
    var m := Message(e);
    match e
    case Begin(n) =>
      assert m[|m| - |BEGIN|..] == BEGIN && m[..|m| - |BEGIN|] == n;
    case End(n) =>
      assert m[|m| - |END|..] == END && m[..|m| - |END|] == n;
      assert |m| >= |BEGIN| ==> m[|m| - |BEGIN|..][|BEGIN| - 1] == 'D';
  }

  function Events(f: Scopes): seq<Event> {
    match f
    case Nil => []
    case Scope(name, inner, rest) => [Begin(name)] + Events(inner) + [End(name)] + Events(rest)
  }

  function LinesOf(es: seq<Event>): seq<Line> {
    if es == [] then [] else [Line(Debug, Message(es[0]))] + LinesOf(es[1..])
  }

  lemma {:induction false} LinesOfConcat(a: seq<Event>, b: seq<Event>)
    ensures LinesOf(a + b) == LinesOf(a) + LinesOf(b)
  {
    if a == [] {
      assert a + b == b;
    } else {
      assert (a + b)[1..] == a[1..] + b;
      LinesOfConcat(a[1..], b);
    }
  }

  lemma LinesOfOne(e: Event)
    ensures LinesOf([e]) == [Line(Debug, Message(e))]
  {
    assert [e][1..] == [];
  }

  /** At the debug threshold named scopes write their begin and end lines around those of their inner scopes. */
  lemma {:induction false} LinesAfter(s: State, f: Scopes)
    requires s.threshold == Debug && Unnamed(f) == 0
    ensures Run(s, f).lines == s.lines + LinesOf(Events(f))
    decreases f
  {
    match f
    case Nil => assert s.lines + [] == s.lines;
    case Scope(name, inner, rest) =>
      var s1 := Push(s, name);
      var s2 := Run(s1, inner);
      var s3 := Pop(s2).0;
      PushEffect(s, name);
      LinesAfter(s1, inner);
      StackAfter(s1, inner);
      PopEffect(s2);
      LinesAfter(s3, rest);
      LinesOfScope(name, Events(inner), Events(rest));
      JoinLines(s.lines, Line(Debug, Message(Begin(name))), LinesOf(Events(inner)),
                Line(Debug, Message(End(name))), LinesOf(Events(rest)));
  }

  lemma JoinLines(l: seq<Line>, b: Line, inner: seq<Line>, e: Line, rest: seq<Line>)
    ensures l + [b] + inner + [e] + rest == l + ([b] + inner + [e] + rest)
  {
  }

  lemma LinesOfScope(name: string, a: seq<Event>, b: seq<Event>)
    ensures LinesOf([Begin(name)] + a + [End(name)] + b)
            == [Line(Debug, Message(Begin(name)))] + LinesOf(a) + [Line(Debug, Message(End(name)))] + LinesOf(b)
  {
    LinesOfOne(Begin(name));
    LinesOfOne(End(name));
    LinesOfConcat([Begin(name)], a);
    LinesOfConcat([Begin(name)] + a, [End(name)]);
    LinesOfConcat([Begin(name)] + a + [End(name)], b);
  }

  /** Below the debug threshold scopes write nothing. */
  lemma {:induction false} QuietBelowDebug(s: State, f: Scopes)
    requires s.threshold != Debug
    ensures Run(s, f).lines == s.lines
    decreases f
  {
    match f
    case Nil =>
    case Scope(name, inner, rest) =>
      var s1 := Push(s, name);
      PushEffect(s, name);
      StackAfter(s1, inner);
      QuietBelowDebug(s1, inner);
      PopEffect(Run(s1, inner));
      QuietBelowDebug(Pop(Run(s1, inner)).0, rest);
  }

  // ---------------------------------------------------------------------
  // Reading the lines back
  // ---------------------------------------------------------------------

  /** Reads scopes from the front, up to an end line or the end; None on a begin line without its end line. */
  function Parse(es: seq<Event>): (r: Option<(Scopes, seq<Event>)>)
    ensures r.Some? ==> |r.value.1| <= |es|
    decreases |es|
  {
    if es == [] || es[0].End? then Some((Nil, es))
    else
      match Parse(es[1..])
      case None => None
      case Some((inner, after)) =>
        if after == [] || after[0] != End(es[0].name) then None
        else
          match Parse(after[1..])
          case None => None
          case Some((rest, left)) => Some((Scope(es[0].name, inner, rest), left))
  }

  lemma ParseScope(es: seq<Event>, name: string, inner: Scopes, after: seq<Event>, rest: Scopes, left: seq<Event>)
    requires es != [] && es[0] == Begin(name) && Parse(es[1..]) == Some((inner, after))
    requires after != [] && after[0] == End(name) && Parse(after[1..]) == Some((rest, left))
    ensures Parse(es) == Some((Scope(name, inner, rest), left))
  {
  }

  lemma OpenFirst(name: string, a: seq<Event>, b: seq<Event>, k: seq<Event>)
    ensures var es, after := [Begin(name)] + a + [End(name)] + b + k, [End(name)] + (b + k);
            es[0] == Begin(name) && es[1..] == a + after && after[1..] == b + k
  {
  }

  lemma {:induction false} ParseEvents(f: Scopes, k: seq<Event>)
    requires k == [] || k[0].End?
    ensures Parse(Events(f) + k) == Some((f, k))
  {
    match f
    case Nil => assert [] + k == k;
    case Scope(name, inner, rest) =>
      var es := Events(f) + k;
      var after := [End(name)] + (Events(rest) + k);
      OpenFirst(name, Events(inner), Events(rest), k);
      ParseEvents(inner, after);
      ParseEvents(rest, k);
      ParseScope(es, name, inner, after, rest, k);
  }

  /** Nothing but the events of a scope tree parses as that tree. */
  lemma {:induction false} ParsedAreEvents(es: seq<Event>)
    ensures Parse(es).Some? ==> es == Events(Parse(es).value.0) + Parse(es).value.1
    decreases |es|
  {
    if Parse(es).Some? {
      var (f, left) := Parse(es).value;
      if f == Nil {
        assert [] + es == es;
      } else {
        var (inner, after) := Parse(es[1..]).value;
        ParsedAreEvents(es[1..]);
        ParsedAreEvents(after[1..]);
        Reassemble(es, Events(inner), after, Events(f.rest), left);
      }
    }
  }

  lemma Reassemble(es: seq<Event>, a: seq<Event>, after: seq<Event>, b: seq<Event>, left: seq<Event>)
    requires es != [] && es[1..] == a + after && after != [] && after[1..] == b + left
    ensures es == [es[0]] + a + [after[0]] + b + left
  {
    assert es == [es[0]] + es[1..] && after == [after[0]] + after[1..];
  }

  function EventsOf(lines: seq<Line>): Option<seq<Event>> {
    if lines == [] then Some([])
    else
      match (EventOf(lines[0].message), EventsOf(lines[1..]))
      case (Some(e), Some(es)) => Some([e] + es)
      case _ => None
  }

  lemma {:induction false} EventsOfLines(es: seq<Event>)
    ensures EventsOf(LinesOf(es)) == Some(es)
  {
    if es != [] {
      EventOfMessage(es[0]);
      EventsOfLines(es[1..]);
      assert LinesOf(es)[1..] == LinesOf(es[1..]) && [es[0]] + es[1..] == es;
    }
  }

  /** Whatever the names, scopes only append lines, and none that begins a scope without a name. */
  lemma {:induction false} LinesEmitted(s: State, f: Scopes) returns (es: seq<Event>)
    requires s.threshold == Debug
    ensures Run(s, f).lines == s.lines + LinesOf(es) && Begin("") !in es
    decreases f
  {
    match f
    case Nil =>
      es := [];
      assert s.lines + [] == s.lines;
    case Scope(name, inner, rest) =>
      var s1 := Push(s, name);
      var s2 := Run(s1, inner);
      var s3 := Pop(s2).0;
      PushEffect(s, name);
      StackAfter(s1, inner);
      PopEffect(s2);
      var begin, end := if name == "" then [] else [Begin(name)], if s2.stack == [] then [] else [End(Pop(s2).1)];
      var es1 := LinesEmitted(s1, inner);
      var es2 := LinesEmitted(s3, rest);
      es := begin + es1 + end + es2;
      StepLines(s, s1, begin, s2, s3, end, name);
      LinesOfFour(begin, es1, end, es2);
      JoinFour(s.lines, LinesOf(begin), LinesOf(es1), LinesOf(end), LinesOf(es2));
  }

  /** A constructor and a destructor each write at most their own line. */
  lemma StepLines(s: State, s1: State, begin: seq<Event>, s2: State, s3: State, end: seq<Event>, name: string)
    requires s.threshold == Debug && s2.threshold == Debug && s1 == Push(s, name) && s3 == Pop(s2).0
    requires begin == (if name == "" then [] else [Begin(name)])
    requires end == (if s2.stack == [] then [] else [End(Pop(s2).1)])
    ensures s1.lines == s.lines + LinesOf(begin) && s3.lines == s2.lines + LinesOf(end)
  {
    if name != "" { LinesOfOne(Begin(name)); }
    if s2.stack != [] { LinesOfOne(End(Pop(s2).1)); }
  }

  lemma LinesOfFour(a: seq<Event>, b: seq<Event>, c: seq<Event>, d: seq<Event>)
    ensures LinesOf(a + b + c + d) == LinesOf(a) + LinesOf(b) + LinesOf(c) + LinesOf(d)
  {
    LinesOfConcat(a, b);
    LinesOfConcat(a + b, c);
    LinesOfConcat(a + b + c, d);
  }

  lemma JoinFour(l: seq<Line>, a: seq<Line>, b: seq<Line>, c: seq<Line>, d: seq<Line>)
    ensures l + a + b + c + d == l + (a + b + c + d)
  {
  }

  lemma {:induction false} UnnamedBegins(f: Scopes)
    ensures Unnamed(f) > 0 ==> Begin("") in Events(f)
  {
    if f.Scope? {
      UnnamedBegins(f.inner);
      UnnamedBegins(f.rest);
    }
  }

  /** The emitted lines, read as text, give back exactly the tree of scopes that was run, if and only if
      all its scopes have names. */
  lemma LinesParseBack(s: State, f: Scopes)
    requires s.threshold == Debug
    ensures |Run(s, f).lines| >= |s.lines|
    ensures var es := EventsOf(Run(s, f).lines[|s.lines|..]);
            es.Some? && (Parse(es.value) == Some((f, [])) <==> Unnamed(f) == 0)
  {
    var es := LinesEmitted(s, f);
    assert Run(s, f).lines[|s.lines|..] == LinesOf(es);
    EventsOfLines(es);
    ParsedAreEvents(es);
    UnnamedBegins(f);
    assert Events(f) + [] == Events(f);
    if Unnamed(f) == 0 {
      LinesAfter(s, f);
      assert Run(s, f).lines[|s.lines|..] == LinesOf(Events(f));
      EventsOfLines(Events(f));
      ParseEvents(f, []);
    }
  }

  /** The check a bracket matcher makes: every end closes the innermost open begin. */
  function Match(es: seq<Event>, open: seq<string>): Option<seq<string>> {
    if es == [] then Some(open)
    else
      match es[0]
      case Begin(n) => Match(es[1..], open + [n])
      case End(n) =>
        if open == [] || open[|open| - 1] != n then None else Match(es[1..], open[..|open| - 1])
  }

  lemma {:induction false} TreeMatches(f: Scopes, k: seq<Event>, open: seq<string>)
    ensures Match(Events(f) + k, open) == Match(k, open)
  {
    match f
    case Nil => assert [] + k == k;
    case Scope(name, inner, rest) =>
      var es := Events(f) + k;
      var after := [End(name)] + (Events(rest) + k);
      assert es[1..] == Events(inner) + after;
      TreeMatches(inner, after, open + [name]);
      assert after[1..] == Events(rest) + k && (open + [name])[..|open|] == open;
      TreeMatches(rest, k, open);
  }

  lemma {:induction false} MatchedParses(es: seq<Event>, open: seq<string>)
    requires Match(es, open) == Some([])
    ensures Parse(es).Some? && Match(Parse(es).value.1, open) == Some([])
    ensures Parse(es).value.1 == [] || Parse(es).value.1[0].End?
    decreases |es|
  {
    if es != [] && es[0].Begin? {
      var open' := open + [es[0].name];
      MatchedParses(es[1..], open');
      var after := Parse(es[1..]).value.1;
      assert open'[..|open'| - 1] == open;
      MatchedParses(after[1..], open);
    }
  }

  /** Events are well nested exactly when they are those of some tree, which parsing then finds. */
  lemma WellNestedExactly(es: seq<Event>)
    ensures Match(es, []) == Some([]) <==> Parse(es).Some? && Parse(es).value.1 == []
    ensures Match(es, []) == Some([]) ==> es == Events(Parse(es).value.0)
  {
    if Match(es, []) == Some([]) { MatchedParses(es, []); }
    if Parse(es).Some? && Parse(es).value.1 == [] {
      var f := Parse(es).value.0;
      ParsedAreEvents(es);
      assert Events(f) + [] == Events(f);
      TreeMatches(f, [], []);
    }
  }
}

/** The singleton and the scope object. */
module ScopeLog {
  import opened ScopeLogSpec

  class Logger {
    var threshold: Level
    var stack: seq<string>
    var lines: seq<Line>

    function Abs(): State
      reads this
    {
      State(threshold, stack, lines)
    }

    constructor ()
      ensures Abs() == State(Info, [], [])
    {
      threshold, stack, lines := Info, [], [];
    }

    method SetThreshold(level: Level)
      modifies this`threshold
      ensures Abs() == old(Abs()).(threshold := level)
    {
      threshold := level;
    }

    method WriteLog(level: Level, message: string) returns (written: bool)
      modifies this`lines
      ensures Abs() == Log(old(Abs()), level, message)
      ensures written <==> level in Written(threshold)
      ensures lines == old(lines) + if written then [Line(level, message)] else []
    {
      LogWrites(Abs(), level, message);
      written := Rank(level) <= Rank(threshold);
      if written { lines := lines + [Line(level, message)]; }
    }

    method PushName(input: string) returns (pushed: bool)
      modifies this
      ensures Abs() == Push(old(Abs()), input) && pushed == (input != "")
    {
      if input == "" { return false; }
      var _ := WriteLog(Debug, Message(Begin(input)));
      stack := stack + [input];
      return true;
    }

    method PopName() returns (name: string)
      modifies this
      ensures (Abs(), name) == Pop(old(Abs()))
    {
      if stack == [] { return ""; }
      name := stack[|stack| - 1];
      stack := stack[..|stack| - 1];
      var _ := WriteLog(Debug, Message(End(name)));
    }

    /** A program whose scopes hold StackLogger objects. */
    method RunScopes(f: Scopes)
      modifies this
      ensures Abs() == Run(old(Abs()), f)
      ensures Unnamed(f) == 0 ==> stack == old(stack)
    {
      ghost var before := Abs();
      match f {
        case Nil =>
        case Scope(name, inner, rest) =>
          var _ := PushName(name);
          RunScopes(inner);
          var _ := PopName();
          RunScopes(rest);
      }
      StackRestoredExactly(before, f);
    }
  }
}
