/** The part of ECMAScript regular expressions that the classifier's patterns use:
    character classes repeated greedily between a minimum and a maximum,
    capturing groups of alternatives that may be optional (`(...)?`), and
    top-level alternation of anchored branches (`^A$|^B$`).

    `Exec` is a backtracking matcher that tries what ECMAScript tries in the
    order it tries it (one more repetition before fewer, alternatives left to
    right, an optional group before skipping it), so its first success is the
    match `RegExp.prototype.exec` reports, captures included; `Test` is
    `RegExp.prototype.test`. `Accepts` is the plain language of a piece
    sequence, and `ExecParses` proves that every match decomposes the input
    term by term, each captured group holding a word of its own language. */
module Regex {
  import opened Options
  import opened Strings

  datatype CharClass =
    | Exactly(c: char)          // a literal character, `\+` or `\.`
    | OneOf(chars: seq<char>)   // a bracket class listing its characters, `[- ]`
    | Digit                     // `\d` and `[0-9]`
    | Space                     // `\s`
    | NotSpaceNorAt             // `[^\s@]`
    | NotColon                  // `[^:]`
    | NotLineTerminator         // `.`
    | Letter                    // `[a-zA-Z]`
    | HostChar                  // `[a-zA-Z0-9-]`
  {
    predicate Has(ch: char) {
      match this
      case Exactly(c) => ch == c
      case OneOf(chars) => ch in chars
      case Digit => IsDigit(ch)
      case Space => IsWhitespace(ch)
      case NotSpaceNorAt => !IsWhitespace(ch) && ch != '@'
      case NotColon => ch != ':'
      case NotLineTerminator => !IsLineTerminator(ch)
      case Letter => IsAsciiLetter(ch)
      case HostChar => IsAsciiLetter(ch) || IsDigit(ch) || ch == '-'
    }
  }

  datatype Bound = AtMost(n: nat) | Unbounded

  /** `cls{min,max}`, greedy. */
  datatype Piece = Piece(cls: CharClass, min: nat, max: Bound) {
    /** What is left of the repetition once one character has been taken. */
    function Next(): Piece {
      Piece(cls, if min > 0 then min - 1 else 0,
            match max case AtMost(n) => AtMost(if n > 0 then n - 1 else 0) case Unbounded => Unbounded)
    }
    predicate CanTake() {
      max != AtMost(0)
    }
  }

  /** A parenthesised part `(a|b|...)`, capturing into `group` when that is
      present, followed by `?` when `optional`; a run of pieces outside any
      group is a term with one alternative and no group. */
  datatype Term = Term(group: Option<nat>, alts: seq<seq<Piece>>, optional: bool)

  /** One anchored alternative `^...$` of a pattern. */
  type Branch = seq<Term>
  type Pattern = seq<Branch>

  datatype Span = Span(start: nat, end: nat)
  type Captures = map<nat, Span>

  /** A group being matched: its number and where it started. */
  datatype Open = Open(group: nat, start: nat)

  function OpenAt(group: Option<nat>, i: nat): Option<Open> {
    match group
    case None => None
    case Some(g) => Some(Open(g, i))
  }

  function Close(open: Option<Open>, i: nat, caps: Captures): Captures {
    match open
    case None => caps
    case Some(o) => caps[o.group := Span(o.start, i)]
  }

  /** Matches the pieces `ps` of the current alternative from position `i`,
      then the terms `rest`, and requires the end of the input after them. */
  function Run(ps: seq<Piece>, open: Option<Open>, rest: seq<Term>, s: string, i: nat, caps: Captures): Option<Captures>
    requires i <= |s|
    decreases |s| - i, |rest|, 1, |ps|
  {
    if ps == [] then
      var closed := Close(open, i, caps);
      if rest == [] then (if i == |s| then Some(closed) else None)
      else TryAlts(rest[0], 0, rest[1..], s, i, closed)
    else
      var p := ps[0];
      var taken := if i < |s| && p.cls.Has(s[i]) && p.CanTake()
                   then Run([p.Next()] + ps[1..], open, rest, s, i + 1, caps)
                   else None;
      if taken.Some? then taken
      else if p.min == 0 then Run(ps[1..], open, rest, s, i, caps)
      else None
  }

  /** Tries the alternatives of `t` from the `k`-th on, then skipping `t` when it is optional. */
  function TryAlts(t: Term, k: nat, rest: seq<Term>, s: string, i: nat, caps: Captures): Option<Captures>
    requires i <= |s|
    decreases |s| - i, |rest| + 1, 0, |t.alts| - k
  {
    if k < |t.alts| then
      var r := Run(t.alts[k], OpenAt(t.group, i), rest, s, i, caps);
      if r.Some? then r else TryAlts(t, k + 1, rest, s, i, caps)
    else if t.optional then Run([], None, rest, s, i, caps)
    else None
  }

  function ExecBranches(p: Pattern, b: nat, s: string): Option<Captures>
    decreases |p| - b
  {
    if b < |p| then
      var r := Run([], None, p[b], s, 0, map[]);
      if r.Some? then r else ExecBranches(p, b + 1, s)
    else None
  }

  /** `RegExp.prototype.exec` for an anchored pattern: the captures of the first match. */
  function Exec(p: Pattern, s: string): Option<Captures> {
    ExecBranches(p, 0, s)
  }

  /** `RegExp.prototype.test`. */
  predicate Test(p: Pattern, s: string) {
    Exec(p, s).Some?
  }

  /** The text of group `g`, or the empty string when the group took no part
      in the match (`match[g] || ''`). */
  function Captured(s: string, caps: Captures, g: nat): string {
    if g in caps && caps[g].start <= caps[g].end <= |s| then s[caps[g].start..caps[g].end] else ""
  }

  // ----- The language of a piece sequence -----

  predicate Accepts(ps: seq<Piece>, x: string)
    decreases |x|, |ps|
  {
    if ps == [] then x == []
    else
      var p := ps[0];
      || (x != [] && p.cls.Has(x[0]) && p.CanTake() && Accepts([p.Next()] + ps[1..], x[1..]))
      || (p.min == 0 && Accepts(ps[1..], x))
  }

  // ----- Well-formed branches: every group number at most once -----

  function GroupIds(ts: seq<Term>): set<nat> {
    if ts == [] then {}
    else (match ts[0].group case None => {} case Some(g) => {g}) + GroupIds(ts[1..])
  }

  predicate WellFormed(ts: seq<Term>) {
    ts == [] || ((ts[0].group.None? || ts[0].group.value !in GroupIds(ts[1..])) && WellFormed(ts[1..]))
  }

  /** The group numbers of `ts` rise strictly from left to right, all above `m`. */
  predicate GroupsAscending(ts: seq<Term>, m: int) {
    ts == [] || (match ts[0].group
                 case None => GroupsAscending(ts[1..], m)
                 case Some(g) => g > m && GroupsAscending(ts[1..], g))
  }

  lemma {:induction false} GroupsAscendingWellFormed(ts: seq<Term>, m: int)
    requires GroupsAscending(ts, m)
    ensures WellFormed(ts) && forall g :: g in GroupIds(ts) ==> g > m
  {
    if ts != [] {
      match ts[0].group
      case None => GroupsAscendingWellFormed(ts[1..], m);
      case Some(g) => GroupsAscendingWellFormed(ts[1..], g);
    }
  }

  function OpenIds(open: Option<Open>): set<nat> {
    match open
    case None => {}
    case Some(o) => {o.group}
  }

  /** `c` and `caps` agree on every group number outside `changed`. */
  ghost predicate SameOutside(c: Captures, caps: Captures, changed: set<nat>) {
    forall g :: g !in changed ==> (g in c <==> g in caps) && (g in caps ==> c[g] == caps[g])
  }

  lemma GroupIdsCons(t: Term, rest: seq<Term>)
    ensures GroupIds([t] + rest) == (match t.group case None => {} case Some(g) => {g}) + GroupIds(rest)
  {
    assert ([t] + rest)[1..] == rest;
  }

  /** A match only records the groups it passes through. */
  lemma {:induction false} RunFrame(ps: seq<Piece>, open: Option<Open>, rest: seq<Term>, s: string, i: nat, caps: Captures)
    requires i <= |s| && Run(ps, open, rest, s, i, caps).Some?
    ensures SameOutside(Run(ps, open, rest, s, i, caps).value, caps, GroupIds(rest) + OpenIds(open))
    decreases |s| - i, |rest|, 1, |ps|
  {
    if ps == [] {
      if rest != [] {
        var closed := Close(open, i, caps);
        TryAltsFrame(rest[0], 0, rest[1..], s, i, closed);
        GroupIdsCons(rest[0], rest[1..]);
        assert [rest[0]] + rest[1..] == rest;
      }
    } else {
      var p := ps[0];
      if i < |s| && p.cls.Has(s[i]) && p.CanTake() && Run([p.Next()] + ps[1..], open, rest, s, i + 1, caps).Some? {
        RunFrame([p.Next()] + ps[1..], open, rest, s, i + 1, caps);
      } else {
        RunFrame(ps[1..], open, rest, s, i, caps);
      }
    }
  }

  lemma {:induction false} TryAltsFrame(t: Term, k: nat, rest: seq<Term>, s: string, i: nat, caps: Captures)
    requires i <= |s| && TryAlts(t, k, rest, s, i, caps).Some?
    ensures SameOutside(TryAlts(t, k, rest, s, i, caps).value, caps, GroupIds([t] + rest))
    decreases |s| - i, |rest| + 1, 0, |t.alts| - k
  {
    GroupIdsCons(t, rest);
    if k < |t.alts| {
      if Run(t.alts[k], OpenAt(t.group, i), rest, s, i, caps).Some? {
        RunFrame(t.alts[k], OpenAt(t.group, i), rest, s, i, caps);
      } else {
        TryAltsFrame(t, k + 1, rest, s, i, caps);
      }
    } else {
      RunFrame([], None, rest, s, i, caps);
    }
  }

  // ----- Every match is a parse -----

  /** Term `t` spans `s[i..j]`: one of its alternatives accepts that text and
      its group captured exactly it, or it is optional, was skipped and
      captured nothing. */
  ghost predicate TermMatches(t: Term, s: string, i: nat, j: nat, c: Captures)
    requires i <= j <= |s|
  {
    || ((exists k :: 0 <= k < |t.alts| && Accepts(t.alts[k], s[i..j]))
        && (t.group.Some? ==> t.group.value in c && c[t.group.value] == Span(i, j)))
    || (t.optional && i == j && (t.group.Some? ==> t.group.value !in c))
  }

  /** The terms `ts` span `s[i..]` one after another. */
  ghost predicate Parses(ts: seq<Term>, s: string, i: nat, c: Captures)
    requires i <= |s|
    decreases |ts|
  {
    if ts == [] then i == |s|
    else exists j :: i <= j <= |s| && TermMatches(ts[0], s, i, j, c) && Parses(ts[1..], s, j, c)
  }

  lemma {:induction false} RunParses(ps: seq<Piece>, open: Option<Open>, rest: seq<Term>, s: string, i: nat, caps: Captures)
    requires i <= |s| && Run(ps, open, rest, s, i, caps).Some?
    requires WellFormed(rest)
    requires OpenIds(open) !! GroupIds(rest) && caps.Keys !! GroupIds(rest)
    requires open.Some? ==> open.value.start <= i
    ensures var c := Run(ps, open, rest, s, i, caps).value;
            exists e :: i <= e <= |s| && Accepts(ps, s[i..e]) && Parses(rest, s, e, c)
                        && (open.Some? ==> open.value.group in c && c[open.value.group] == Span(open.value.start, e))
    decreases |s| - i, |rest|, 1, |ps|
  {
    var c := Run(ps, open, rest, s, i, caps).value;
    if ps == [] {
      assert Accepts(ps, s[i..i]);
      var closed := Close(open, i, caps);
      if rest != [] {
        GroupIdsCons(rest[0], rest[1..]);
        assert [rest[0]] + rest[1..] == rest;
        TryAltsParses(rest[0], 0, rest[1..], s, i, closed);
        TryAltsFrame(rest[0], 0, rest[1..], s, i, closed);
        var j :| i <= j <= |s| && TermMatches(rest[0], s, i, j, c) && Parses(rest[1..], s, j, c);
        assert Parses(rest, s, i, c);
      }
    } else {
      var p := ps[0];
      if i < |s| && p.cls.Has(s[i]) && p.CanTake() && Run([p.Next()] + ps[1..], open, rest, s, i + 1, caps).Some? {
        RunParses([p.Next()] + ps[1..], open, rest, s, i + 1, caps);
        var e :| i + 1 <= e <= |s| && Accepts([p.Next()] + ps[1..], s[i + 1..e]) && Parses(rest, s, e, c)
                 && (open.Some? ==> open.value.group in c && c[open.value.group] == Span(open.value.start, e));
        assert s[i..e][1..] == s[i + 1..e];
        assert Accepts(ps, s[i..e]);
      } else {
        RunParses(ps[1..], open, rest, s, i, caps);
        var e :| i <= e <= |s| && Accepts(ps[1..], s[i..e]) && Parses(rest, s, e, c)
                 && (open.Some? ==> open.value.group in c && c[open.value.group] == Span(open.value.start, e));
        assert Accepts(ps, s[i..e]);
      }
    }
  }

  lemma {:induction false} TryAltsParses(t: Term, k: nat, rest: seq<Term>, s: string, i: nat, caps: Captures)
    requires i <= |s| && TryAlts(t, k, rest, s, i, caps).Some?
    requires WellFormed([t] + rest)
    requires caps.Keys !! GroupIds([t] + rest)
    ensures var c := TryAlts(t, k, rest, s, i, caps).value;
            exists j :: i <= j <= |s| && TermMatches(t, s, i, j, c) && Parses(rest, s, j, c)
    decreases |s| - i, |rest| + 1, 0, |t.alts| - k
  {
    var c := TryAlts(t, k, rest, s, i, caps).value;
    GroupIdsCons(t, rest);
    assert ([t] + rest)[0] == t && ([t] + rest)[1..] == rest;
    if k < |t.alts| {
      if Run(t.alts[k], OpenAt(t.group, i), rest, s, i, caps).Some? {
        RunParses(t.alts[k], OpenAt(t.group, i), rest, s, i, caps);
        var e :| i <= e <= |s| && Accepts(t.alts[k], s[i..e]) && Parses(rest, s, e, c)
                 && (OpenAt(t.group, i).Some? ==> t.group.value in c && c[t.group.value] == Span(i, e));
        assert TermMatches(t, s, i, e, c);
      } else {
        TryAltsParses(t, k + 1, rest, s, i, caps);
      }
    } else {
      RunParses([], None, rest, s, i, caps);
      RunFrame([], None, rest, s, i, caps);
      var e :| i <= e <= |s| && Accepts([], s[i..e]) && Parses(rest, s, e, c);
      assert e == i;
      assert TermMatches(t, s, i, i, c);
    }
  }

  /** Every match of a well-formed pattern is a parse of one of its branches. */
  lemma ExecParses(p: Pattern, s: string)
    requires forall b :: 0 <= b < |p| ==> WellFormed(p[b])
    requires Test(p, s)
    ensures exists b :: 0 <= b < |p| && Parses(p[b], s, 0, Exec(p, s).value)
  {
    var b := 0;
    while b < |p| && Run([], None, p[b], s, 0, map[]).None?
      invariant b <= |p|
      invariant ExecBranches(p, b, s) == Exec(p, s)
    {
      b := b + 1;
    }
    assert b < |p|;
    RunParses([], None, p[b], s, 0, map[]);
  }

  /** The boundaries of a parse: term `n` spans `s[pos[n]..pos[n + 1]]`. */
  ghost predicate Spans(ts: seq<Term>, s: string, c: Captures, pos: seq<nat>) {
    && |pos| == |ts| + 1 && pos[|ts|] == |s|
    && forall n :: 0 <= n < |ts| ==> SpanAt(ts, s, c, pos, n)
  }

  ghost predicate SpanAt(ts: seq<Term>, s: string, c: Captures, pos: seq<nat>, n: nat)
    requires n < |ts| && |pos| == |ts| + 1
  {
    pos[n] <= pos[n + 1] <= |s| && TermMatches(ts[n], s, pos[n], pos[n + 1], c)
  }

  lemma {:induction false} ParsesSpans(ts: seq<Term>, s: string, i: nat, c: Captures)
    requires i <= |s| && Parses(ts, s, i, c)
    ensures exists pos :: Spans(ts, s, c, pos) && pos[0] == i
    decreases |ts|
  {
    if ts == [] {
      assert Spans(ts, s, c, [i]);
    } else {
      var j :| i <= j <= |s| && TermMatches(ts[0], s, i, j, c) && Parses(ts[1..], s, j, c);
      ParsesSpans(ts[1..], s, j, c);
      var rest :| Spans(ts[1..], s, c, rest) && rest[0] == j;
      var pos := [i] + rest;
      forall n | 0 <= n < |ts| ensures SpanAt(ts, s, c, pos, n) {
        if n > 0 {
          assert SpanAt(ts[1..], s, c, rest, n - 1);
          assert ts[n] == ts[1..][n - 1] && pos[n] == rest[n - 1] && pos[n + 1] == rest[n];
        }
      }
      assert Spans(ts, s, c, pos);
    }
  }

  /** Every match of a well-formed pattern splits the input term by term along one of its branches. */
  lemma ExecSpans(p: Pattern, s: string)
    requires forall b :: 0 <= b < |p| ==> WellFormed(p[b])
    requires Test(p, s)
    ensures exists b, pos :: 0 <= b < |p| && Spans(p[b], s, Exec(p, s).value, pos) && pos[0] == 0
  {
    ExecParses(p, s);
    var b :| 0 <= b < |p| && Parses(p[b], s, 0, Exec(p, s).value);
    ParsesSpans(p[b], s, 0, Exec(p, s).value);
  }

  // ----- Every parse is found -----

  /** Some alternative of `t` from the `k`-th on accepts `x`. */
  ghost predicate AltAccepts(t: Term, k: nat, x: string) {
    exists a :: k <= a < |t.alts| && Accepts(t.alts[a], x)
  }

  /** The language of a branch, without captures: the terms `ts` span `s[i..]`
      one after another, each skipped only when it is optional. */
  ghost predicate LangFrom(ts: seq<Term>, s: string, i: nat)
    requires i <= |s|
    decreases |ts|
  {
    if ts == [] then i == |s|
    else exists j :: i <= j <= |s| && (AltAccepts(ts[0], 0, s[i..j]) || (ts[0].optional && j == i))
                     && LangFrom(ts[1..], s, j)
  }

  lemma {:induction false} RunComplete(ps: seq<Piece>, open: Option<Open>, rest: seq<Term>, s: string, i: nat, caps: Captures, e: nat)
    requires i <= e <= |s| && Accepts(ps, s[i..e]) && LangFrom(rest, s, e)
    ensures Run(ps, open, rest, s, i, caps).Some?
    decreases |s| - i, |rest|, 1, |ps|
  {
    if ps == [] {
      assert e == i;
      if rest != [] {
        var j :| i <= j <= |s| && (AltAccepts(rest[0], 0, s[i..j]) || (rest[0].optional && j == i))
                 && LangFrom(rest[1..], s, j);
        TryAltsComplete(rest[0], 0, rest[1..], s, i, Close(open, i, caps), j);
      }
    } else {
      var p := ps[0];
      var x := s[i..e];
      if x != [] && p.cls.Has(x[0]) && p.CanTake() && Accepts([p.Next()] + ps[1..], x[1..]) {
        assert x[1..] == s[i + 1..e];
        RunComplete([p.Next()] + ps[1..], open, rest, s, i + 1, caps, e);
      } else {
        RunComplete(ps[1..], open, rest, s, i, caps, e);
      }
    }
  }

  lemma {:induction false} TryAltsComplete(t: Term, k: nat, rest: seq<Term>, s: string, i: nat, caps: Captures, j: nat)
    requires i <= j <= |s| && LangFrom(rest, s, j)
    requires AltAccepts(t, k, s[i..j]) || (t.optional && j == i)
    ensures TryAlts(t, k, rest, s, i, caps).Some?
    decreases |s| - i, |rest| + 1, 0, |t.alts| - k
  {
    if k < |t.alts| {
      if Accepts(t.alts[k], s[i..j]) {
        RunComplete(t.alts[k], OpenAt(t.group, i), rest, s, i, caps, j);
      } else {
        if AltAccepts(t, k, s[i..j]) {
          var a :| k <= a < |t.alts| && Accepts(t.alts[a], s[i..j]);
          assert a != k;
          assert AltAccepts(t, k + 1, s[i..j]);
        }
        TryAltsComplete(t, k + 1, rest, s, i, caps, j);
      }
    } else {
      assert Accepts([], s[i..i]);
      RunComplete([], None, rest, s, i, caps, i);
    }
  }

  lemma {:induction false} ExecBranchesComplete(p: Pattern, b: nat, s: string, w: nat)
    requires b <= w < |p| && LangFrom(p[w], s, 0)
    ensures ExecBranches(p, b, s).Some?
    decreases w - b
  {
    if Run([], None, p[b], s, 0, map[]).None? {
      if b == w {
        assert Accepts([], s[0..0]);
        RunComplete([], None, p[b], s, 0, map[], 0);
      } else {
        ExecBranchesComplete(p, b + 1, s, w);
      }
    }
  }

  /** Completeness: an input in the language of some branch of a pattern is matched. */
  lemma ExecComplete(p: Pattern, s: string, w: nat)
    requires w < |p| && LangFrom(p[w], s, 0)
    ensures Test(p, s)
  {
    ExecBranchesComplete(p, 0, s, w);
  }

  // ----- Counting characters of a class -----

  function Count(x: string, k: CharClass): nat
    ensures Count(x, k) <= |x|
  {
    if x == [] then 0 else (if k.Has(x[0]) then 1 else 0) + Count(x[1..], k)
  }

  lemma {:induction false} CountConcat(a: string, b: string, k: CharClass)
    ensures Count(a + b, k) == Count(a, k) + Count(b, k)
  {
    if a == [] {
      assert a + b == b;
    } else {
      CountConcat(a[1..], b, k);
      assert (a + b)[1..] == a[1..] + b;
    }
  }

  /** Every character of class `k` is also of class `x`, as can be seen from their descriptions. */
  predicate Inside(k: CharClass, x: CharClass) {
    k == x || (k.Exactly? && x.Has(k.c)) || (k.OneOf? && forall ch :: ch in k.chars ==> x.Has(ch))
  }

  /** The fewest characters of class `x` a word of `ps` can hold. */
  function MinCount(ps: seq<Piece>, x: CharClass): nat {
    if ps == [] then 0 else (if Inside(ps[0].cls, x) then ps[0].min else 0) + MinCount(ps[1..], x)
  }

  lemma {:induction false} MinCountConcat(a: seq<Piece>, b: seq<Piece>, x: CharClass)
    ensures MinCount(a + b, x) == MinCount(a, x) + MinCount(b, x)
  {
    if a == [] {
      assert a + b == b;
    } else {
      MinCountConcat(a[1..], b, x);
      assert (a + b)[1..] == a[1..] + b;
    }
  }

  lemma {:induction false} AcceptsMinCount(ps: seq<Piece>, w: string, x: CharClass)
    requires Accepts(ps, w)
    ensures Count(w, x) >= MinCount(ps, x)
    decreases |w|, |ps|
  {
    if ps != [] {
      var p := ps[0];
      if w != [] && p.cls.Has(w[0]) && p.CanTake() && Accepts([p.Next()] + ps[1..], w[1..]) {
        AcceptsMinCount([p.Next()] + ps[1..], w[1..], x);
        assert ([p.Next()] + ps[1..])[1..] == ps[1..];
      } else {
        AcceptsMinCount(ps[1..], w, x);
      }
    }
  }

  /** Every piece that can take `ch` has a bounded maximum. */
  predicate BoundedFor(ps: seq<Piece>, ch: char) {
    forall k :: 0 <= k < |ps| ==> ps[k].cls.Has(ch) ==> ps[k].max.AtMost?
  }

  /** The most occurrences of `ch` a word of `ps` can hold. */
  function MaxCount(ps: seq<Piece>, ch: char): nat
    requires BoundedFor(ps, ch)
  {
    if ps == [] then 0 else (if ps[0].cls.Has(ch) then ps[0].max.n else 0) + MaxCount(ps[1..], ch)
  }

  lemma {:induction false} MaxCountConcat(a: seq<Piece>, b: seq<Piece>, ch: char)
    requires BoundedFor(a + b, ch)
    ensures BoundedFor(a, ch) && BoundedFor(b, ch)
    ensures MaxCount(a + b, ch) == MaxCount(a, ch) + MaxCount(b, ch)
  {
    assert forall k :: 0 <= k < |a| ==> (a + b)[k] == a[k];
    assert forall k :: 0 <= k < |b| ==> (a + b)[|a| + k] == b[k];
    if a == [] {
      assert a + b == b;
    } else {
      assert (a + b)[1..] == a[1..] + b;
      MaxCountConcat(a[1..], b, ch);
    }
  }

  lemma {:induction false} AcceptsMaxCount(ps: seq<Piece>, w: string, ch: char)
    requires Accepts(ps, w) && BoundedFor(ps, ch)
    ensures Count(w, Exactly(ch)) <= MaxCount(ps, ch)
    decreases |w|, |ps|
  {
    if ps != [] {
      var p := ps[0];
      if w != [] && p.cls.Has(w[0]) && p.CanTake() && Accepts([p.Next()] + ps[1..], w[1..]) {
        var q := [p.Next()] + ps[1..];
        assert q[1..] == ps[1..];
        assert BoundedFor(q, ch) by {
          forall k | 0 <= k < |q| && q[k].cls.Has(ch) ensures q[k].max.AtMost? {
            if k > 0 { assert q[k] == ps[k]; }
          }
        }
        AcceptsMaxCount(q, w[1..], ch);
      } else {
        assert BoundedFor(ps[1..], ch) by {
          forall k | 0 <= k < |ps[1..]| && ps[1..][k].cls.Has(ch) ensures ps[1..][k].max.AtMost? {
            assert ps[1..][k] == ps[k + 1];
          }
        }
        AcceptsMaxCount(ps[1..], w, ch);
      }
    }
  }

  /** A word of pieces whose classes all lie inside `x` consists of characters of `x`. */
  lemma {:induction false} AcceptsInside(ps: seq<Piece>, w: string, x: CharClass)
    requires Accepts(ps, w)
    requires forall k :: 0 <= k < |ps| ==> Inside(ps[k].cls, x)
    ensures forall k :: 0 <= k < |w| ==> x.Has(w[k])
    decreases |w|, |ps|
  {
    if ps != [] {
      var p := ps[0];
      if w != [] && p.cls.Has(w[0]) && p.CanTake() && Accepts([p.Next()] + ps[1..], w[1..]) {
        var q := [p.Next()] + ps[1..];
        assert forall k :: 0 < k < |q| ==> q[k] == ps[k];
        AcceptsInside(q, w[1..], x);
        assert forall k :: 0 < k < |w| ==> w[k] == w[1..][k - 1];
      } else {
        assert forall k :: 0 <= k < |ps[1..]| ==> ps[1..][k] == ps[k + 1];
        AcceptsInside(ps[1..], w, x);
      }
    }
  }
}
