/**
 Symbolic modes of `mkdir -m`: the clause interpreter, the language it accepts and what
 a mode means.
 */
module MkdirMode {
  import opened Words
  import B = Bits

  /** A mode_t as the set of its bits, numbered from the lowest. */
  type Mode = set<nat>

  const RWXU: Mode := {6, 7, 8}
  const RWXG: Mode := {3, 4, 5}
  const RWXO: Mode := {0, 1, 2}
  const ISUID: Mode := {11}
  const ISGID: Mode := {10}
  const ISVTX: Mode := {9}

  datatype Who = Who(u: bool, g: bool, o: bool)

  // ---------------------------------------------------------------- syntax

  predicate IsWho(c: char) { c == 'u' || c == 'g' || c == 'o' || c == 'a' }
  predicate IsOp(c: char) { c == '+' || c == '-' || c == '=' }
  predicate IsPerm(c: char) { c == 'r' || c == 'w' || c == 'x' || c == 'X' || c == 's' || c == 't' }

  datatype Action = Action(op: char, perms: string)
  datatype Clause = Clause(who: string, actions: seq<Action>)

  predicate WellFormedAction(a: Action) { IsOp(a.op) && forall i :: 0 <= i < |a.perms| ==> IsPerm(a.perms[i]) }

  predicate WellFormedActions(acts: seq<Action>) {
    acts != [] && forall i :: 0 <= i < |acts| ==> WellFormedAction(acts[i])
  }

  /** who letters, then one action or more. */
  predicate WellFormed(c: Clause) {
    && (forall i :: 0 <= i < |c.who| ==> IsWho(c.who[i]))
    && WellFormedActions(c.actions)
  }

  function ActionsText(actions: seq<Action>): string {
    if actions == [] then "" else [actions[0].op] + actions[0].perms + ActionsText(actions[1..])
  }

  /** A clause as it is written. */
  function Text(c: Clause): string { c.who + ActionsText(c.actions) }

  // ---------------------------------------------------------------- meaning

  /** m -> (m & ~off) | on */
  datatype Change = Change(off: Mode, on: Mode)

  function Apply(t: Change, m: Mode): Mode { m - t.off + t.on }

  function Then(first: Change, second: Change): Change {
    Change(first.off + second.off, first.on - second.off + second.on)
  }

  const NOTHING: Change := Change({}, {})

  function Classes(who: string): Who {
    if who == "" then Who(false, false, false)
    else
      var n := |who| - 1;
      WithClass(Classes(who[..n]), who[n])
  }

  function WithClass(w: Who, c: char): Who {
    Who(w.u || c == 'u' || c == 'a', w.g || c == 'g' || c == 'a', w.o || c == 'o' || c == 'a')
  }

  lemma {:induction false} ClassesExact(who: string)
    ensures Classes(who).u <==> 'u' in who || 'a' in who
    ensures Classes(who).g <==> 'g' in who || 'a' in who
    ensures Classes(who).o <==> 'o' in who || 'a' in who
  {
    if who != "" {
      ClassesExact(who[..|who| - 1]);
      assert who == who[..|who| - 1] + [who[|who| - 1]];
    }
  }

  /** No class named means all of them: there is no umask exception. */
  function Named(who: string): Who {
    if Classes(who) == Who(false, false, false) then Who(true, true, true) else Classes(who)
  }

  function Pick(w: Who, u: Mode, g: Mode, o: Mode): Mode {
    (if w.u then u else {}) + (if w.g then g else {}) + (if w.o then o else {})
  }

  /** The bits of the classes. */
  function Class(w: Who): Mode { Pick(w, RWXU + ISUID, RWXG + ISGID, RWXO + ISVTX) }

  function Letter(w: Who, c: char): Mode {
    if c == 'r' then Pick(w, {8}, {5}, {2})
    else if c == 'w' then Pick(w, {7}, {4}, {1})
    else if c == 'x' || c == 'X' then Pick(w, {6}, {3}, {0})
    else if c == 's' then Pick(w, ISUID, ISGID, {})
    else if c == 't' then ISVTX
    else {}
  }

  function Bits(w: Who, perms: string): Mode {
    if perms == "" then {} else Bits(w, perms[..|perms| - 1]) + Letter(w, perms[|perms| - 1])
  }

  /** An operator with the bits of its letters; `=` clears the classes named first. */
  function OpChange(w: Who, op: char, bits: Mode): Change {
    if op == '+' then Change({}, bits)
    else if op == '-' then Change(bits, {})
    else Change(Class(w), bits)
  }

  function ActionChange(w: Who, a: Action): Change { OpChange(w, a.op, Bits(w, a.perms)) }

  function ActionsChange(w: Who, actions: seq<Action>): Change {
    if actions == [] then NOTHING else Then(ActionChange(w, actions[0]), ActionsChange(w, actions[1..]))
  }

  /** What a clause does to a mode. */
  function Meaning(c: Clause): Change { ActionsChange(Named(c.who), c.actions) }

  lemma ThenApplies(first: Change, second: Change, m: Mode)
    ensures Apply(Then(first, second), m) == Apply(second, Apply(first, m))
  {
  }

  lemma NothingFirst(t: Change)
    ensures Then(NOTHING, t) == t && Then(t, NOTHING) == t
  {
  }

  lemma ThenAssociates(a: Change, b: Change, c: Change)
    ensures Then(Then(a, b), c) == Then(a, Then(b, c))
  {
  }

  // ---------------------------------------------------------------- parsing

  function WhoSpan(s: string): (n: nat)
    ensures n <= |s| && (forall i :: 0 <= i < n ==> IsWho(s[i])) && (n < |s| ==> !IsWho(s[n]))
  {
    if s == "" || !IsWho(s[0]) then 0 else 1 + WhoSpan(s[1..])
  }

  function PermSpan(s: string): (n: nat)
    ensures n <= |s| && (forall i :: 0 <= i < n ==> IsPerm(s[i])) && (n < |s| ==> !IsPerm(s[n]))
  {
    if s == "" || !IsPerm(s[0]) then 0 else 1 + PermSpan(s[1..])
  }

  function ParseActions(s: string): Option<seq<Action>>
    decreases |s|
  {
    if s == "" || !IsOp(s[0]) then None
    else
      var n := 1 + PermSpan(s[1..]);
      var a := Action(s[0], s[1..n]);
      if n == |s| then Some([a]) else Prepend([a], ParseActions(s[n..]))
  }

  function Prepend(acts: seq<Action>, rest: Option<seq<Action>>): Option<seq<Action>> {
    if rest.None? then None else Some(acts + rest.value)
  }

  lemma PrependNone(rest: Option<seq<Action>>)
    ensures Prepend([], rest) == rest
  {
    if rest.Some? { assert [] + rest.value == rest.value; }
  }

  lemma PrependTwice(acts: seq<Action>, a: Action, rest: Option<seq<Action>>)
    ensures Prepend(acts, Prepend([a], rest)) == Prepend(acts + [a], rest)
  {
    if rest.Some? { assert acts + ([a] + rest.value) == acts + [a] + rest.value; }
  }

  lemma ActionsTextCons(a: Action, rest: seq<Action>)
    ensures ActionsText([a] + rest) == [a.op] + a.perms + ActionsText(rest)
  {
    assert ([a] + rest)[1..] == rest;
  }

  function Parse(s: string): Option<Clause> {
    var n := WhoSpan(s);
    var actions := ParseActions(s[n..]);
    if actions.None? then None else Some(Clause(s[..n], actions.value))
  }

  /** The text of an action is where it was parsed from. */
  lemma FirstText(s: string, n: nat, rest: seq<Action>)
    requires 1 <= n <= |s| && ActionsText(rest) == s[n..]
    ensures ActionsText([Action(s[0], s[1..n])] + rest) == s
  {
    ActionsTextCons(Action(s[0], s[1..n]), rest);
    assert [s[0]] + s[1..n] == s[..n];
    assert s == s[..n] + s[n..];
  }

  lemma {:induction false} ActionsParsed(s: string)
    requires ParseActions(s).Some?
    ensures ActionsText(ParseActions(s).value) == s && WellFormedActions(ParseActions(s).value)
    decreases |s|
  {
    var n := 1 + PermSpan(s[1..]);
    var a := Action(s[0], s[1..n]);
    assert WellFormedAction(a);
    if n == |s| {
      FirstText(s, n, []);
      assert [a] + [] == [a];
    } else {
      ActionsParsed(s[n..]);
      FirstText(s, n, ParseActions(s[n..]).value);
    }
  }

  lemma {:induction false} SpanOf(perms: string, rest: string)
    requires (forall i :: 0 <= i < |perms| ==> IsPerm(perms[i])) && (rest != "" ==> !IsPerm(rest[0]))
    ensures PermSpan(perms + rest) == |perms|
  {
    if perms == "" {
      assert perms + rest == rest;
    } else {
      assert (perms + rest)[1..] == perms[1..] + rest;
      SpanOf(perms[1..], rest);
    }
  }

  lemma {:induction false} WhoSpanOf(who: string, rest: string)
    requires (forall i :: 0 <= i < |who| ==> IsWho(who[i])) && (rest != "" ==> !IsWho(rest[0]))
    ensures WhoSpan(who + rest) == |who|
  {
    if who == "" {
      assert who + rest == rest;
    } else {
      assert (who + rest)[1..] == who[1..] + rest;
      WhoSpanOf(who[1..], rest);
    }
  }

  lemma {:induction false} ActionsReadBack(acts: seq<Action>)
    requires WellFormedActions(acts)
    ensures ParseActions(ActionsText(acts)) == Some(acts)
    ensures ActionsText(acts) != "" && IsOp(ActionsText(acts)[0])
    decreases |acts|
  {
    var rest := ActionsText(acts[1..]);
    if |acts| > 1 { ActionsReadBack(acts[1..]); }
    FirstReadBack(acts[0], rest);
    assert acts == [acts[0]] + acts[1..];
    if |acts| == 1 { assert acts == [acts[0]]; }
  }

  lemma FirstReadBack(a: Action, rest: string)
    requires WellFormedAction(a) && (rest != "" ==> IsOp(rest[0]))
    ensures var s := [a.op] + a.perms + rest;
            ParseActions(s) == if rest == "" then Some([a]) else Prepend([a], ParseActions(rest))
  {
    TextSlices(a.op, a.perms, rest);
    SpanOf(a.perms, rest);
  }

  lemma TextSlices(op: char, perms: string, rest: string)
    ensures var s, n := [op] + perms + rest, 1 + |perms|;
            s[0] == op && s[1..] == perms + rest && s[1..n] == perms && s[n..] == rest
  {
  }

  /** Clauses can be written and read back: the notation is unambiguous. */
  lemma ReadBack(c: Clause)
    requires WellFormed(c)
    ensures Parse(Text(c)) == Some(c)
  {
    ActionsReadBack(c.actions);
    WhoSpanOf(c.who, ActionsText(c.actions));
    assert Text(c)[|c.who|..] == ActionsText(c.actions) && Text(c)[..|c.who|] == c.who;
  }

  /** What is parsed is what was written. */
  lemma Parsed(s: string)
    requires Parse(s).Some?
    ensures WellFormed(Parse(s).value) && Text(Parse(s).value) == s
  {
    var n := WhoSpan(s);
    ActionsParsed(s[n..]);
    assert s == s[..n] + s[n..];
  }

  /** Exactly the clauses are accepted. */
  lemma Accepted(s: string)
    ensures Parse(s).Some? <==> exists c :: WellFormed(c) && Text(c) == s
  {
    if Parse(s).Some? {
      Parsed(s);
      var c := Parse(s).value;
      assert WellFormed(c) && Text(c) == s;
    }
    forall c | WellFormed(c) && Text(c) == s ensures Parse(s).Some? { ReadBack(c); }
  }

  lemma {:induction false} ActionsChangeAppend(w: Who, acts: seq<Action>, a: Action)
    ensures ActionsChange(w, acts + [a]) == Then(ActionsChange(w, acts), ActionChange(w, a))
  {
    if acts == [] {
      assert acts + [a] == [a] && [a][1..] == [];
      NothingFirst(ActionChange(w, a));
    } else {
      assert (acts + [a])[1..] == acts[1..] + [a];
      ActionsChangeAppend(w, acts[1..], a);
      ThenAssociates(ActionChange(w, acts[0]), ActionsChange(w, acts[1..]), ActionChange(w, a));
    }
  }

  // ---------------------------------------------------------------- the program

  /** One letter of a permission list. */
  method AddLetter(w: Who, c: char, bits0: Mode) returns (bits: Mode)
    ensures bits == bits0 + Letter(w, c)
  {
    bits := bits0;
    if c == 'r' {
      if w.u { bits := bits + {8}; }
      if w.g { bits := bits + {5}; }
      if w.o { bits := bits + {2}; }
    } else if c == 'w' {
      if w.u { bits := bits + {7}; }
      if w.g { bits := bits + {4}; }
      if w.o { bits := bits + {1}; }
    } else if c == 'x' || c == 'X' {
      if w.u { bits := bits + {6}; }
      if w.g { bits := bits + {3}; }
      if w.o { bits := bits + {0}; }
    } else if c == 's' {
      if w.u { bits := bits + ISUID; }
      if w.g { bits := bits + ISGID; }
    } else if c == 't' {
      bits := bits + ISVTX;
    }
  }

  /** What an operator does with the bits collected. */
  method Operate(w: Who, op: char, bits: Mode, m0: Mode) returns (m: Mode)
    requires IsOp(op)
    ensures m == Apply(OpChange(w, op, bits), m0)
  {
    m := m0;
    if op == '+' {
      m := m + bits;
    } else if op == '-' {
      m := m - bits;
    } else {
      if w.u { m := m - (RWXU + ISUID); }
      if w.g { m := m - (RWXG + ISGID); }
      if w.o { m := m - (RWXO + ISVTX); }
      m := m + bits;
    }
  }

  /** The letters from p on: their bits, and where they end. */
  method Perms(w: Who, s: string, p0: nat) returns (bits: Mode, p: nat)
    requires p0 <= |s|
    ensures p == p0 + PermSpan(s[p0..]) && bits == Bits(w, s[p0..p])
  {
    hide PermSpan, Bits;
    bits, p := {}, p0;
    NoLetters(w);
    assert s[p0..p0] == "";
    while p < |s| && IsPerm(s[p])
      invariant p0 <= p <= |s| && p + PermSpan(s[p..]) == p0 + PermSpan(s[p0..])
      invariant bits == Bits(w, s[p0..p])
    {
      LetterRead(w, s, p0, p);
      bits := AddLetter(w, s[p], bits);
      p := p + 1;
    }
    assert p < |s| ==> s[p..][0] == s[p];
  }

  lemma NoLetters(w: Who)
    ensures Bits(w, "") == {}
  {
  }

  /** One more letter of the list at p0. */
  lemma LetterRead(w: Who, s: string, p0: nat, p: nat)
    requires p0 <= p < |s| && IsPerm(s[p])
    ensures PermSpan(s[p..]) == 1 + PermSpan(s[p + 1..])
    ensures Bits(w, s[p0..p + 1]) == Bits(w, s[p0..p]) + Letter(w, s[p])
  {
    assert s[p..][1..] == s[p + 1..];
    assert s[p0..p + 1][..p - p0] == s[p0..p];
  }

  /** applyclause: fails exactly on what is no clause, and applies what the clause means. */
  method ApplyClause(s: string, m0: Mode) returns (ok: bool, m: Mode)
    ensures ok == Parse(s).Some?
    ensures ok ==> m == Apply(Meaning(Parse(s).value), m0)
    ensures ok ==> var c := Parse(s).value;
                   forall k: nat :: k in m <==> LastDecides(Deeds(Named(c.who), c.actions), k in m0, k)
  {
    hide Parse, Meaning, Deeds, LastDecides, Apply, PermSpan;
    m := m0;
    var p := 0;
    var w := Who(false, false, false);
    while p < |s| && IsWho(s[p])
      invariant 0 <= p <= |s| && p + WhoSpan(s[p..]) == WhoSpan(s)
      invariant w == Classes(s[..p])
    {
      w := WithClass(w, s[p]);
      assert s[p..][1..] == s[p + 1..];
      assert s[..p + 1][..p] == s[..p];
      p := p + 1;
    }
    if w == Who(false, false, false) { w := Who(true, true, true); }
    ok, m := Actions(w, s, p, m0);
    ParseParts(s);
    if ok { ClauseBits(s, m0); }
  }

  lemma ParseParts(s: string)
    ensures var n := WhoSpan(s);
            var actions := ParseActions(s[n..]);
            && (Parse(s).Some? <==> actions.Some?)
            && (actions.Some? ==> Meaning(Parse(s).value) == ActionsChange(Named(s[..n]), actions.value))
  {
  }

  /** One action: the operator at p and the letters behind it, up to q. */
  method OneAction(w: Who, s: string, p: nat, m0: Mode) returns (q: nat, m: Mode)
    requires p < |s| && IsOp(s[p])
    ensures q == p + 1 + PermSpan(s[p + 1..])
    ensures m == Apply(ActionChange(w, Action(s[p], s[p + 1..q])), m0)
  {
    var bits;
    bits, q := Perms(w, s, p + 1);
    m := Operate(w, s[p], bits, m0);
  }

  /** The loop of applyclause over its actions. */
  method Actions(w: Who, s: string, start: nat, m0: Mode) returns (ok: bool, m: Mode)
    requires start <= |s|
    ensures ok == ParseActions(s[start..]).Some?
    ensures ok ==> m == Apply(ActionsChange(w, ParseActions(s[start..]).value), m0)
  {
    m := m0;
    var p := start;
    ghost var done: seq<Action> := [];
    ghost var parsed := ParseActions(s[start..]);
    PrependNone(parsed);
    while true
      invariant start <= p <= |s|
      invariant parsed == Prepend(done, ParseActions(s[p..]))
      invariant m == Apply(ActionsChange(w, done), m0)
      decreases |s| - p
    {
      if p == |s| || !IsOp(s[p]) {
        NoAction(s, p);
        return false, m;
      }
      var q;
      q, m := OneAction(w, s, p, m);
      MoreApplied(w, done, Action(s[p], s[p + 1..q]), m0);
      ParsedNext(s, p, q, done, parsed);
      done := done + [Action(s[p], s[p + 1..q])];
      if q == |s| || !IsOp(s[q]) {
        if q < |s| { NoAction(s, q); }
        return q == |s|, m;
      }
      p := q;
    }
  }

  lemma MoreApplied(w: Who, done: seq<Action>, a: Action, m: Mode)
    ensures Apply(ActionsChange(w, done + [a]), m) == Apply(ActionChange(w, a), Apply(ActionsChange(w, done), m))
  {
    ActionsChangeAppend(w, done, a);
    ThenApplies(ActionsChange(w, done), ActionChange(w, a), m);
  }

  lemma NoAction(s: string, p: nat)
    requires p <= |s| && (p == |s| || !IsOp(s[p]))
    ensures ParseActions(s[p..]).None?
  {
  }

  /** One more action, from p to q, of what is parsed. */
  lemma ParsedNext(s: string, p: nat, q: nat, done: seq<Action>, parsed: Option<seq<Action>>)
    requires p < |s| && IsOp(s[p]) && q == p + 1 + PermSpan(s[p + 1..])
    requires parsed == Prepend(done, ParseActions(s[p..]))
    ensures var a := Action(s[p], s[p + 1..q]);
            parsed == if q == |s| then Some(done + [a]) else Prepend(done + [a], ParseActions(s[q..]))
  {
    ParsedAt(s, p, q);
    PrependTwice(done, Action(s[p], s[p + 1..q]), ParseActions(s[q..]));
  }

  lemma ParsedAt(s: string, p: nat, q: nat)
    requires p < |s| && IsOp(s[p]) && q == p + 1 + PermSpan(s[p + 1..])
    ensures var a := Action(s[p], s[p + 1..q]);
            ParseActions(s[p..]) == if q == |s| then Some([a]) else Prepend([a], ParseActions(s[q..]))
  {
    var t := s[p..];
    assert t[0] == s[p] && t[1..] == s[p + 1..] && t[1..q - p] == s[p + 1..q] && t[(q - p)..] == s[q..];
  }

  // ---------------------------------------------------------------- modes

  /** The first comma from i on, or the end. */
  function Comma(s: string, i: nat): (j: nat)
    requires i <= |s|
    ensures i <= j <= |s| && (forall k :: i <= k < j ==> s[k] != ',') && (j < |s| ==> s[j] == ',')
    decreases |s| - i
  {
    if i == |s| || s[i] == ',' then i else Comma(s, i + 1)
  }

  /** The non-empty pieces between commas, from i on. */
  function TokensFrom(s: string, i: nat): seq<string>
    requires i <= |s|
    decreases |s| - i
  {
    if i == |s| then []
    else if s[i] == ',' then TokensFrom(s, i + 1)
    else [s[i..Comma(s, i)]] + TokensFrom(s, Comma(s, i))
  }

  function Tokens(s: string): seq<string> { TokensFrom(s, 0) }

  /** What a list of clauses does, if all of them are clauses. */
  function ModeChange(tokens: seq<string>): Option<Change> {
    if tokens == [] then Some(NOTHING)
    else
      var c := Parse(tokens[0]);
      if c.None? then None else After(Meaning(c.value), ModeChange(tokens[1..]))
  }

  function After(first: Change, rest: Option<Change>): Option<Change> {
    if rest.None? then None else Some(Then(first, rest.value))
  }

  const START: Mode := RWXU + RWXG + RWXO          // a=rwx

  /** strtok_r: the next piece from i on, if there is one. */
  method NextToken(s: string, i: nat) returns (found: bool, from: nat, to: nat)
    requires i <= |s|
    ensures if found then i <= from < to <= |s| && TokensFrom(s, i) == [s[from..to]] + TokensFrom(s, to)
            else TokensFrom(s, i) == []
  {
    from := i;
    while from < |s| && s[from] == ','
      invariant i <= from <= |s| && TokensFrom(s, from) == TokensFrom(s, i)
    {
      from := from + 1;
    }
    to := from;
    while to < |s| && s[to] != ','
      invariant from <= to <= |s| && Comma(s, to) == Comma(s, from)
    {
      to := to + 1;
    }
    found := from < to;
  }

  // ---------------------------------------------------------------- octal modes

  predicate IsOctal(c: char) { '0' <= c <= '7' }

  function Digit(c: char): (d: nat)
    requires IsOctal(c)
    ensures d < 8
  {
    c as int - '0' as int
  }

  /** The number that octal digits stand for. */
  function Octal(s: string): Option<nat> {
    if s == "" then Some(0)
    else
      var n := |s| - 1;
      if IsOctal(s[n]) && Octal(s[..n]).Some? then Some(8 * Octal(s[..n]).value + Digit(s[n])) else None
  }

  /** The bits of a number that has no more than twelve. */
  function BitsOf(v: nat): Mode { set k | 0 <= k < 12 && B.Bit(v, k) }

  function OctalMode(s: string): Option<Mode> {
    if Octal(s).Some? && Octal(s).value <= 0xfff then Some(BitsOf(Octal(s).value)) else None
  }

  /** Bit k of the number is bit k % 3 of the digit k / 3 places from the end. */
  lemma {:induction false} DigitBits(s: string, k: nat)
    requires Octal(s).Some?
    ensures B.Bit(Octal(s).value, k)
            <==> k / 3 < |s| && IsOctal(s[|s| - 1 - k / 3]) && B.Bit(Digit(s[|s| - 1 - k / 3]), k % 3)
    decreases |s|
  {
    if s == "" {
      NoBits(k);
    } else {
      var n := |s| - 1;
      var h, d := Octal(s[..n]).value, Digit(s[n]);
      if k < 3 {
        LowDigit(h, d, k);
      } else {
        DropDigit(h, d, k);
        DigitBits(s[..n], k - 3);
        assert (k - 3) / 3 == k / 3 - 1 && (k - 3) % 3 == k % 3;
      }
    }
  }

  lemma {:induction false} NoBits(k: nat)
    ensures !B.Bit(0, k)
  {
    if k > 0 { NoBits(k - 1); }
  }

  lemma LowDigit(h: nat, d: nat, k: nat)
    requires d < 8 && k < 3
    ensures B.Bit(8 * h + d, k) <==> B.Bit(d, k)
  {
    var x := 8 * h + d;
    B.Halve(4 * h + d / 2, d % 2);
    B.Halve(2 * h + d / 4, d / 2 % 2);
    B.Halve(h, d / 4);
    assert x / 2 == 4 * h + d / 2 && x / 2 / 2 == 2 * h + d / 4;
    assert B.Bit(x, k) == if k == 0 then x % 2 == 1 else B.Bit(x / 2, k - 1);
    assert k == 2 ==> B.Bit(x, k) == B.Bit(x / 2 / 2, 0) && B.Bit(d, k) == B.Bit(d / 2 / 2, 0);
  }

  lemma DropDigit(h: nat, d: nat, k: nat)
    requires d < 8 && k >= 3
    ensures B.Bit(8 * h + d, k) == B.Bit(h, k - 3)
  {
    var x := 8 * h + d;
    assert x / 2 == 4 * h + d / 2 && x / 2 / 2 == 2 * h + d / 4 && x / 2 / 2 / 2 == h;
    assert B.Bit(x, k) == B.Bit(x / 2, k - 1) == B.Bit(x / 2 / 2, k - 2) == B.Bit(x / 2 / 2 / 2, k - 3);
  }

  /** Digits accepted, and the bits they set: each digit gives one class its read, write and execute bits, the fourth
      from the end the special bits. */
  lemma OctalMeaning(s: string, k: nat)
    requires OctalMode(s).Some? && k < 12
    ensures k in OctalMode(s).value <==>
              k / 3 < |s| && IsOctal(s[|s| - 1 - k / 3]) && B.Bit(Digit(s[|s| - 1 - k / 3]), k % 3)
  {
    DigitBits(s, k);
  }

  lemma {:induction false} NotOctal(s: string, i: nat)
    requires i < |s| && !IsOctal(s[i])
    ensures Octal(s).None?
    decreases |s|
  {
    if i < |s| - 1 { NotOctal(s[..|s| - 1], i); }
  }

  /** strtol(s, &end, 8) and the tests on it. */
  method ParseOctal(s: string) returns (ok: bool, out: Mode)
    ensures ok == OctalMode(s).Some?
    ensures ok ==> out == OctalMode(s).value
  {
    var v, i := 0, 0;
    while i < |s| && IsOctal(s[i])
      invariant 0 <= i <= |s| && Octal(s[..i]) == Some(v)
    {
      assert s[..i + 1][..i] == s[..i];
      v, i := 8 * v + Digit(s[i]), i + 1;
    }
    if i < |s| {
      NotOctal(s, i);
      return false, {};
    }
    assert s[..i] == s;
    ok, out := v <= 0xfff, BitsOf(v);
  }

  /** What parsemode makes of s: octal when it starts with a digit, clauses otherwise. */
  function ModeOf(s: string): Option<Mode> {
    if s != "" && '0' <= s[0] <= '9' then OctalMode(s)
    else if ModeChange(Tokens(s)).Some? then Some(Apply(ModeChange(Tokens(s)).value, START)) else None
  }

  /** parsemode */
  method ParseMode(s: string) returns (ok: bool, out: Mode)
    ensures ok == ModeOf(s).Some?
    ensures ok ==> out == ModeOf(s).value
    ensures ok && !(s != "" && '0' <= s[0] <= '9') ==>
              forall k: nat :: k in out <==> LastDecides(AllDeeds(Tokens(s)), k < 9, k)
  {
    if s != "" && '0' <= s[0] <= '9' {
      ok, out := ParseOctal(s);
    } else {
      ok, out := ParseSymbolic(s);
    }
  }

  /** Its symbolic branch: every piece must be a clause, and they are applied in order to a=rwx. */
  method ParseSymbolic(s: string) returns (ok: bool, out: Mode)
    ensures ok == ModeChange(Tokens(s)).Some?
    ensures ok ==> out == Apply(ModeChange(Tokens(s)).value, START)
    ensures ok ==> forall k: nat :: k in out <==> LastDecides(AllDeeds(Tokens(s)), k < 9, k)
  {
    out := START;
    var i := 0;
    ghost var t := NOTHING;
    AfterNothing(ModeChange(Tokens(s)));
    while true
      invariant i <= |s|
      invariant ModeChange(Tokens(s)) == After(t, ModeChange(TokensFrom(s, i))) && out == Apply(t, START)
      decreases |s| - i
    {
      var found, from, to := NextToken(s, i);
      if !found {
        forall k: nat | ModeChange(Tokens(s)).Some?
          ensures k in Apply(ModeChange(Tokens(s)).value, START) <==> LastDecides(AllDeeds(Tokens(s)), k < 9, k)
        {
          SymbolicExact(s, k);
        }
        return true, out;
      }
      var good;
      good, out := ApplyClause(s[from..to], out);
      ModeStep(s[from..to], TokensFrom(s, to));
      if !good { return false, out; }
      ghost var c := Meaning(Parse(s[from..to]).value);
      ThenApplies(t, c, START);
      AfterTwice(t, c, ModeChange(TokensFrom(s, to)));
      t := Then(t, c);
      i := to;
    }
  }

  lemma ModeStep(token: string, rest: seq<string>)
    ensures ModeChange([token] + rest)
            == if Parse(token).None? then None else After(Meaning(Parse(token).value), ModeChange(rest))
  {
    assert ([token] + rest)[1..] == rest;
  }

  lemma AfterNothing(rest: Option<Change>)
    ensures After(NOTHING, rest) == rest
  {
    if rest.Some? { NothingFirst(rest.value); }
  }

  lemma AfterTwice(a: Change, b: Change, rest: Option<Change>)
    ensures After(a, After(b, rest)) == After(Then(a, b), rest)
  {
    if rest.Some? { ThenAssociates(a, b, rest.value); }
  }

  // ---------------------------------------------------------------- what modes can do

  /** Whether bit k belongs to one of the classes; the sticky bit always does. */
  predicate Owns(w: Who, k: nat) {
    if k == 9 then true
    else if k in {11, 8, 7, 6} then w.u
    else if k in {10, 5, 4, 3} then w.g
    else k in {2, 1, 0} && w.o
  }

  /** What the classes own, in numbers: the sticky bit goes with others. */
  lemma ClassExact(w: Who, k: nat)
    ensures k in Class(w) <==>
              (w.u && k in {11, 8, 7, 6}) || (w.g && k in {10, 5, 4, 3}) || (w.o && k in {9, 2, 1, 0})
  {
  }

  /** The letter that asks for bit k. */
  predicate AsksFor(c: char, k: nat) {
    if k in {8, 5, 2} then c == 'r'
    else if k in {7, 4, 1} then c == 'w'
    else if k in {6, 3, 0} then c == 'x' || c == 'X'
    else if k in {11, 10} then c == 's'
    else c == 't'
  }

  lemma LetterExact(w: Who, c: char, k: nat)
    ensures k in Letter(w, c) <==> Owns(w, k) && AsksFor(c, k)
  {
  }

  /** The letters mean what they say, class by class; `t` needs none, and `s` does nothing for others. */
  lemma {:induction false} BitsExact(w: Who, perms: string, k: nat)
    ensures k in Bits(w, perms) <==> Owns(w, k) && exists i :: 0 <= i < |perms| && AsksFor(perms[i], k)
  {
    if perms != "" {
      var n := |perms| - 1;
      BitsExact(w, perms[..n], k);
      LetterExact(w, perms[n], k);
      assert forall i :: 0 <= i < n ==> perms[..n][i] == perms[i];
    }
  }

  predicate Sticky(acts: seq<Action>) { acts != [] && ('t' in acts[0].perms || Sticky(acts[1..])) }

  lemma ActionTouches(w: Who, a: Action)
    ensures ActionChange(w, a).off + ActionChange(w, a).on <= Class(w) + if 't' in a.perms then ISVTX else {}
  {
    forall k | k in Bits(w, a.perms) ensures k in Class(w) || ('t' in a.perms && k == 9) {
      BitsExact(w, a.perms, k);
    }
  }

  lemma {:induction false} ActionsTouch(w: Who, acts: seq<Action>)
    ensures ActionsChange(w, acts).off + ActionsChange(w, acts).on <= Class(w) + if Sticky(acts) then ISVTX else {}
  {
    if acts != [] {
      ActionTouches(w, acts[0]);
      ActionsTouch(w, acts[1..]);
    }
  }

  /** A clause changes only the bits of the classes it names, and the sticky bit if it mentions `t`. */
  lemma OnlyNamedChange(c: Clause, m: Mode, k: nat)
    requires k !in Class(Named(c.who)) && !(k == 9 && Sticky(c.actions))
    ensures k in Apply(Meaning(c), m) <==> k in m
  {
    ActionsTouch(Named(c.who), c.actions);
  }

  /** Whatever the clauses, an accepted mode stays within 07777 and leaves higher bits alone. */
  lemma {:induction false} WithinPermissions(tokens: seq<string>, k: nat)
    requires ModeChange(tokens).Some? && k >= 12
    ensures k !in ModeChange(tokens).value.off && k !in ModeChange(tokens).value.on
    ensures k !in Apply(ModeChange(tokens).value, START)
  {
    if tokens != [] {
      var c := Parse(tokens[0]).value;
      ActionsTouch(Named(c.who), c.actions);
      assert k !in Meaning(c).off && k !in Meaning(c).on;
      WithinPermissions(tokens[1..], k);
    }
  }

  /** `+` adds the permissions listed and leaves every other bit. */
  lemma AddExact(w: Who, perms: string, m: Mode, k: nat)
    ensures k in Apply(ActionChange(w, Action('+', perms)), m) <==> k in m || k in Bits(w, perms)
  {
  }

  /** `-` takes them away and leaves every other bit. */
  lemma RemoveExact(w: Who, perms: string, m: Mode, k: nat)
    ensures k in Apply(ActionChange(w, Action('-', perms)), m) <==> k in m && k !in Bits(w, perms)
  {
  }

  /** After `=` the classes named have the permissions listed and no others. */
  lemma AssignExact(w: Who, perms: string, m: Mode, k: nat)
    ensures k in Apply(ActionChange(w, Action('=', perms)), m)
            <==> k in Bits(w, perms) || (k in m && k !in Class(w))
  {
  }

  /** A mode is accepted exactly when every piece between commas is the text of a clause. */
  lemma {:induction false} ModeAccepted(tokens: seq<string>)
    ensures ModeChange(tokens).Some?
            <==> forall i :: 0 <= i < |tokens| ==> exists c :: WellFormed(c) && Text(c) == tokens[i]
  {
    if tokens != [] {
      Accepted(tokens[0]);
      ModeAccepted(tokens[1..]);
      assert tokens == [tokens[0]] + tokens[1..];
    }
  }

  /** Applying an accepted mode twice is applying it once. */
  lemma ModeIdempotent(s: string, m: Mode)
    requires ModeChange(Tokens(s)).Some?
    ensures var t := ModeChange(Tokens(s)).value; Apply(t, Apply(t, m)) == Apply(t, m)
  {
  }

  // ---------------------------------------------------------------- the mode of a text, bit by bit

  /** No class written means all three. */
  lemma NamedExact(who: string)
    requires forall i :: 0 <= i < |who| ==> IsWho(who[i])
    ensures Named(who).u <==> who == "" || 'u' in who || 'a' in who
    ensures Named(who).g <==> who == "" || 'g' in who || 'a' in who
    ensures Named(who).o <==> who == "" || 'o' in who || 'a' in who
  {
    ClassesExact(who);
    if who != "" { assert who[0] in who; }
  }

  /** One action for the classes it applies to. */
  datatype Deed = Deed(who: Who, act: Action)

  /** Whether a letter of the action asks for bit k of a class it applies to. */
  predicate Lists(d: Deed, k: nat) {
    Owns(d.who, k) && exists i :: 0 <= i < |d.act.perms| && AsksFor(d.act.perms[i], k)
  }

  /** Whether bit k is set by the action: listed behind `+` or `=`. */
  predicate Sets(d: Deed, k: nat) { d.act.op != '-' && Lists(d, k) }

  /** Whether bit k is decided by the action: listed, or, behind `=`, of a class it applies to. */
  predicate Decides(d: Deed, k: nat) {
    || Lists(d, k)
    || (d.act.op == '=' && ((d.who.u && k in {11, 8, 7, 6}) || (d.who.g && k in {10, 5, 4, 3})
                            || (d.who.o && k in {9, 2, 1, 0})))
  }

  function Deeds(w: Who, acts: seq<Action>): seq<Deed> {
    seq(|acts|, i requires 0 <= i < |acts| => Deed(w, acts[i]))
  }

  /** The actions of all pieces, in order. */
  function AllDeeds(tokens: seq<string>): seq<Deed> {
    if tokens == [] || Parse(tokens[0]).None? then []
    else var c := Parse(tokens[0]).value; Deeds(Named(c.who), c.actions) + AllDeeds(tokens[1..])
  }

  /** The last action that decides bit k has its way; without one the bit is as before. */
  ghost predicate LastDecides(deeds: seq<Deed>, before: bool, k: nat) {
    || (before && forall j :: 0 <= j < |deeds| ==> !Decides(deeds[j], k))
    || exists i :: 0 <= i < |deeds| && Sets(deeds[i], k) && forall j :: i < j < |deeds| ==> !Decides(deeds[j], k)
  }

  lemma ActionExact(d: Deed, m: Mode, k: nat)
    requires IsOp(d.act.op)
    ensures k in Apply(ActionChange(d.who, d.act), m) <==> Sets(d, k) || (k in m && !Decides(d, k))
  {
    BitsExact(d.who, d.act.perms, k);
    ClassExact(d.who, k);
  }

  lemma FirstDeed(d: Deed, rest: seq<Deed>, before: bool, k: nat)
    ensures LastDecides([d] + rest, before, k) <==> LastDecides(rest, Sets(d, k) || (before && !Decides(d, k)), k)
  {
    var all := [d] + rest;
    assert all[0] == d && forall j :: 0 <= j < |rest| ==> all[j + 1] == rest[j];
    forall i | 0 <= i < |rest| && Sets(rest[i], k) && forall j :: i < j < |rest| ==> !Decides(rest[j], k)
      ensures LastDecides(all, before, k)
    {
      assert Sets(all[i + 1], k);
      assert forall j :: i + 1 < j < |all| ==> all[j] == rest[j - 1];
    }
    assert (forall j :: 0 <= j < |all| ==> !Decides(all[j], k))
      <==> !Decides(d, k) && forall j :: 0 <= j < |rest| ==> !Decides(rest[j], k);
  }

  /** Two lists of actions, one after the other. */
  lemma {:induction false} LaterDeeds(first: seq<Deed>, rest: seq<Deed>, before: bool, k: nat)
    ensures LastDecides(first + rest, before, k) <==> LastDecides(rest, LastDecides(first, before, k), k)
  {
    hide Sets, Decides;
    if first == [] {
      assert first + rest == rest;
    } else {
      var d, tail := first[0], first[1..];
      assert first == [d] + tail && first + rest == [d] + (tail + rest);
      FirstDeed(d, tail, before, k);
      FirstDeed(d, tail + rest, before, k);
      LaterDeeds(tail, rest, Sets(d, k) || (before && !Decides(d, k)), k);
    }
  }

  /** A list of actions does to bit k what the last of them that decides it says. */
  lemma {:induction false} ActionsExact(w: Who, acts: seq<Action>, m: Mode, k: nat)
    requires forall i :: 0 <= i < |acts| ==> IsOp(acts[i].op)
    ensures k in Apply(ActionsChange(w, acts), m) <==> LastDecides(Deeds(w, acts), k in m, k)
  {
    hide Sets, Decides;
    if acts != [] {
      var d, tail := Deed(w, acts[0]), acts[1..];
      var m' := Apply(ActionChange(w, acts[0]), m);
      ThenApplies(ActionChange(w, acts[0]), ActionsChange(w, tail), m);
      ActionsExact(w, tail, m', k);
      ActionExact(d, m, k);
      assert Deeds(w, acts) == [d] + Deeds(w, tail);
      FirstDeed(d, Deeds(w, tail), k in m, k);
    }
  }

  /** So does a clause, */
  lemma ClauseExact(s: string, m: Mode, k: nat)
    requires Parse(s).Some?
    ensures var c := Parse(s).value;
            k in Apply(Meaning(c), m) <==> LastDecides(Deeds(Named(c.who), c.actions), k in m, k)
  {
    Parsed(s);
    ActionsExact(Named(Parse(s).value.who), Parse(s).value.actions, m, k);
  }

  lemma ClauseBits(s: string, m: Mode)
    requires Parse(s).Some?
    ensures var c := Parse(s).value;
            forall k: nat :: k in Apply(Meaning(c), m) <==> LastDecides(Deeds(Named(c.who), c.actions), k in m, k)
  {
    hide Parse, Apply, LastDecides, Deeds;
    forall k: nat
      ensures var c := Parse(s).value;
              k in Apply(Meaning(c), m) <==> LastDecides(Deeds(Named(c.who), c.actions), k in m, k)
    {
      ClauseExact(s, m, k);
    }
  }

  /** and so do clauses in order. */
  lemma {:induction false} TokensExact(tokens: seq<string>, m: Mode, k: nat)
    requires ModeChange(tokens).Some?
    ensures k in Apply(ModeChange(tokens).value, m) <==> LastDecides(AllDeeds(tokens), k in m, k)
  {
    hide LastDecides, Parse;
    if tokens == [] {
      NoDeeds(k in m, k);
    } else {
      var c, rest := Parse(tokens[0]).value, tokens[1..];
      ThenApplies(Meaning(c), ModeChange(rest).value, m);
      ClauseExact(tokens[0], m, k);
      TokensExact(rest, Apply(Meaning(c), m), k);
      LaterDeeds(Deeds(Named(c.who), c.actions), AllDeeds(rest), k in m, k);
    }
  }

  lemma NoDeeds(before: bool, k: nat)
    ensures LastDecides([], before, k) <==> before
  {
  }

  /** Symbolic modes start from the nine permission bits, 0777. */
  lemma SymbolicExact(s: string, k: nat)
    requires ModeChange(Tokens(s)).Some?
    ensures k in Apply(ModeChange(Tokens(s)).value, START) <==> LastDecides(AllDeeds(Tokens(s)), k < 9, k)
  {
    hide Tokens, AllDeeds, ModeChange, LastDecides;
    TokensExact(Tokens(s), START, k);
    StartExact(k);
  }

  lemma StartExact(k: nat)
    ensures k in START <==> k < 9
  {
  }

  lemma {:induction false} NoComma(s: string, i: nat)
    requires i <= |s| && forall j :: i <= j < |s| ==> s[j] != ','
    ensures Comma(s, i) == |s|
    decreases |s| - i
  {
    if i < |s| { NoComma(s, i + 1); }
  }

  lemma {:induction false} CommaShift(a: string, s: string, i: nat)
    requires i <= |s|
    ensures Comma(a + s, |a| + i) == |a| + Comma(s, i)
    decreases |s| - i
  {
    if i < |s| {
      assert (a + s)[|a| + i] == s[i];
      CommaShift(a, s, i + 1);
    }
  }

  lemma {:induction false} TokensShift(a: string, s: string, i: nat)
    requires i <= |s|
    ensures TokensFrom(a + s, |a| + i) == TokensFrom(s, i)
    decreases |s| - i
  {
    hide Comma;
    var all := a + s;
    assert |all| == |a| + |s|;
    if i < |s| {
      assert all[|a| + i] == s[i];
      if s[i] == ',' {
        TokensShift(a, s, i + 1);
      } else {
        var j := Comma(s, i);
        FirstLetter(s, i);
        CommaShift(a, s, i);
        assert all[|a| + i..|a| + j] == s[i..j];
        TokensShift(a, s, j);
      }
    }
  }

  lemma FirstLetter(s: string, i: nat)
    requires i < |s| && s[i] != ','
    ensures i < Comma(s, i)
  {
  }

  /** Commas separate the pieces, and empty pieces do not count. */
  lemma Pieces(t: string, s: string)
    requires forall j :: 0 <= j < |t| ==> t[j] != ','
    ensures Tokens(t) == if t == "" then [] else [t]
    ensures Tokens(t + "," + s) == (if t == "" then [] else [t]) + Tokens(s)
  {
    var all, n := t + "," + s, |t|;
    NoComma(t, 0);
    assert t[0..n] == t && TokensFrom(t, n) == [];
    CommaAt(all, 0, n);
    TokensShift(t + ",", s, 0);
    assert all[0..n] == t && TokensFrom(all, n) == Tokens(s);
  }

  lemma {:induction false} CommaAt(s: string, i: nat, n: nat)
    requires i <= n < |s| && s[n] == ',' && forall j :: i <= j < n ==> s[j] != ','
    ensures Comma(s, i) == n
    decreases n - i
  {
    if i < n { CommaAt(s, i + 1, n); }
  }

  /** The text of a clause without commas is a mode of one clause. */
  lemma OneClause(c: Clause)
    requires WellFormed(c)
    ensures Text(c) != "" && Parse(Text(c)) == Some(c)
    ensures ModeChange([Text(c)]).Some? && AllDeeds([Text(c)]) == Deeds(Named(c.who), c.actions)
  {
    hide WhoSpan, ParseActions;
    ReadBack(c);
    ActionsReadBack(c.actions);
    var s := Text(c);
    assert [s][1..] == [];
    assert ModeChange([s]) == After(Meaning(c), Some(NOTHING));
    assert AllDeeds([s]) == Deeds(Named(c.who), c.actions) + [];
  }

  lemma OneActionText(who: string, a: Action)
    requires WellFormedAction(a) && forall i :: 0 <= i < |who| ==> IsWho(who[i])
    ensures var s, c := who + [a.op] + a.perms, Clause(who, [a]);
            && WellFormed(c) && Text(c) == s && Tokens(s) == [s] && !('0' <= s[0] <= '9')
            && Deeds(Named(c.who), c.actions) == [Deed(Named(who), a)]
  {
    hide TokensFrom;
    var s := who + [a.op] + a.perms;
    assert WellFormedActions([a]);
    assert ActionsText([a]) == [a.op] + a.perms + ActionsText([]);
    forall j | 0 <= j < |s| ensures s[j] != ',' {
      if j > |who| { assert s[j] == a.perms[j - |who| - 1]; }
    }
    Pieces(s, "");
  }

  /** One action, from 0777: `+` adds the bits its letters ask for, `-` takes them away, `=` leaves the classes it
      applies to with these alone. */
  lemma OneActionMode(who: string, a: Action, k: nat)
    requires WellFormedAction(a) && forall i :: 0 <= i < |who| ==> IsWho(who[i])
    ensures var s, d := who + [a.op] + a.perms, Deed(Named(who), a);
            && ModeOf(s).Some?
            && (a.op == '+' ==> (k in ModeOf(s).value <==> k < 9 || Lists(d, k)))
            && (a.op == '-' ==> (k in ModeOf(s).value <==> k < 9 && !Lists(d, k)))
            && (a.op == '=' ==> (k in ModeOf(s).value <==> Lists(d, k) || (k < 9 && !Decides(d, k))))
  {
    hide Lists, Tokens, AllDeeds, ModeChange, LastDecides, Deeds, Text, WellFormed;
    var s, d := who + [a.op] + a.perms, Deed(Named(who), a);
    OneActionText(who, a);
    OneClause(Clause(who, [a]));
    SymbolicExact(s, k);
    OneDeed(d, k < 9, k);
  }

  lemma OneDeed(d: Deed, before: bool, k: nat)
    ensures LastDecides([d], before, k) <==> Sets(d, k) || (before && !Decides(d, k))
  {
    hide Sets, Decides;
    FirstDeed(d, [], before, k);
    assert [d] + [] == [d];
    NoDeeds(Sets(d, k) || (before && !Decides(d, k)), k);
  }

  // ---------------------------------------------------------------- octal texts

  lemma {:induction false} OctalDigits(s: string)
    ensures Octal(s).Some? <==> forall i :: 0 <= i < |s| ==> '0' <= s[i] <= '7'
    ensures Octal(s).Some? ==> (Octal(s).value == 0 <==> forall i :: 0 <= i < |s| ==> s[i] == '0')
  {
    if s != "" {
      OctalDigits(s[..|s| - 1]);
    }
  }

  lemma LastDigit(s: string)
    requires s != "" && Octal(s).Some?
    ensures var n := |s| - 1;
            Octal(s[..n]).Some? && Octal(s).value / 8 == Octal(s[..n]).value
  {
  }

  /** Octal modes are digits from 0 to 7, of which only the last four are not zeros. */
  lemma OctalAccepted(s: string)
    ensures OctalMode(s).Some? <==>
              && (forall i :: 0 <= i < |s| ==> '0' <= s[i] <= '7')
              && (forall i :: 0 <= i < |s| - 4 ==> s[i] == '0')
  {
    OctalDigits(s);
    if Octal(s).Some? && s != "" {
      LastDigit(s);
      var a := s[..|s| - 1];
      if a != "" {
        LastDigit(a);
        var b := a[..|a| - 1];
        if b != "" {
          LastDigit(b);
          var c := b[..|b| - 1];
          if c != "" {
            LastDigit(c);
            var d := c[..|c| - 1];
            assert Octal(d).value == Octal(s).value / 4096;
            assert d == s[..|s| - 4];
            OctalDigits(d);
          }
        }
      }
    }
  }
}
