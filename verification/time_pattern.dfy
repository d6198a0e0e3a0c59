/**
 The time pattern
     ^(?P<hour>\d\d??):?(?P<minute>\d\d?)?(?:\s*(?P<p>pm?|am?))?$
 compiled case-insensitively and applied with `re.match`.

 `ValidSplit` says declaratively which ways of cutting a string fit the
 pattern; `MatchSplit` walks the alternatives in the order Python's
 backtracking matcher tries them (the lazy hour tries one digit before two,
 the optional colon and minute are greedy, `\s*` is greedy, `pm?`/`am?`
 try the `m` first) and returns the first cut that reaches `$`. The lemmas
 at the end show that this is exactly the valid cut that comes first in
 that order.
 */
module TimePattern {

  import opened Wrappers
  import opened Text

  /** Lengths of the pieces of one match: hour digits, colon, minute digits,
      whitespace before the meridiem, and meridiem letters. */
  datatype Split = Split(hourLen: nat, colon: bool, minuteLen: nat, spaces: nat, meridiemLen: nat)
  {
    function MinuteStart(): nat {
      hourLen + (if colon then 1 else 0)
    }

    function SuffixStart(): nat {
      MinuteStart() + minuteLen
    }

    function MeridiemStart(): nat {
      SuffixStart() + spaces
    }

    function End(): nat {
      MeridiemStart() + meridiemLen
    }

    function RestPart(): Rest {
      Rest(minuteLen, Tail(spaces, meridiemLen))
    }

    static function Of(hourLen: nat, colon: bool, r: Rest): Split {
      Split(hourLen, colon, r.minuteLen, r.tail.spaces, r.tail.meridiemLen)
    }
  }

  /** The text of the named groups; `None` for a group that did not take part. */
  datatype Groups = Groups(hour: string, minute: Option<string>, p: Option<string>)

  /** First letter of `pm?|am?` under IGNORECASE. */
  predicate IsMeridiemLetter(c: char) {
    c == 'p' || c == 'P' || c == 'a' || c == 'A'
  }

  /** The optional `m` of `pm?|am?` under IGNORECASE. */
  predicate IsM(c: char) {
    c == 'm' || c == 'M'
  }

  /** `$` without MULTILINE: the end of the string, or just before a final newline. */
  predicate AtEnd(s: string, i: nat) {
    i == |s| || (i + 1 == |s| && s[i] == '\n')
  }

  /** What `(?:\s*(?P<p>pm?|am?))?$` takes: whitespace, then meridiem letters. */
  datatype Tail = Tail(spaces: nat, meridiemLen: nat)

  /** What `(?P<minute>\d\d?)?` and the rest take. */
  datatype Rest = Rest(minuteLen: nat, tail: Tail)

  /** `t` fits the suffix of the pattern starting at position `i`. */
  predicate TailFits(s: string, i: nat, t: Tail) {
    && t.meridiemLen <= 2
    && (t.meridiemLen == 0 ==> t.spaces == 0)
    && i + t.spaces + t.meridiemLen <= |s|
    && SpacesBetween(s, i, i + t.spaces)
    && (t.meridiemLen >= 1 ==> IsMeridiemLetter(s[i + t.spaces]))
    && (t.meridiemLen == 2 ==> IsM(s[i + t.spaces + 1]))
    && AtEnd(s, i + t.spaces + t.meridiemLen)
  }

  /** `r` fits the minute and suffix of the pattern starting at position `i`. */
  predicate RestFits(s: string, i: nat, r: Rest) {
    && r.minuteLen <= 2 && i + r.minuteLen <= |s|
    && (r.minuteLen >= 1 ==> IsDigit(s[i]))
    && (r.minuteLen == 2 ==> IsDigit(s[i + 1]))
    && TailFits(s, i + r.minuteLen, r.tail)
  }

  predicate HourValid(s: string, sp: Split) {
    && 1 <= sp.hourLen <= 2 && sp.hourLen <= |s|
    && IsDigit(s[0])
    && (sp.hourLen == 2 ==> IsDigit(s[1]))
  }

  predicate ColonValid(s: string, sp: Split) {
    sp.colon ==> sp.hourLen < |s| && s[sp.hourLen] == ':'
  }

  /** `sp` cuts `s` along the pattern. */
  predicate ValidSplit(s: string, sp: Split) {
    HourValid(s, sp) && ColonValid(s, sp) && RestFits(s, sp.MinuteStart(), sp.RestPart())
  }

  /** The backtracking order: fewer hour digits first, then more minute digits. */
  predicate Precedes(a: Split, b: Split) {
    a.hourLen < b.hourLen || (a.hourLen == b.hourLen && a.minuteLen > b.minuteLen)
  }

  /** `(?:\s*(?P<p>pm?|am?))?$` from position `i`. */
  function MatchSuffix(s: string, i: nat): Option<Tail>
    requires i <= |s|
  {
    var k := SpaceRun(s, i);
    var j := i + k;
    if j + 1 < |s| && IsMeridiemLetter(s[j]) && IsM(s[j + 1]) && AtEnd(s, j + 2) then
      Some(Tail(k, 2))
    else if j < |s| && IsMeridiemLetter(s[j]) && AtEnd(s, j + 1) then
      Some(Tail(k, 1))
    else if AtEnd(s, i) then
      Some(Tail(0, 0))
    else
      None
  }

  /** `(?P<minute>\d\d?)?` and the rest from position `i`. */
  function MatchMinute(s: string, i: nat): Option<Rest>
    requires i <= |s|
  {
    if i + 2 <= |s| && IsDigit(s[i]) && IsDigit(s[i + 1]) && MatchSuffix(s, i + 2).Some? then
      Some(Rest(2, MatchSuffix(s, i + 2).value))
    else if i + 1 <= |s| && IsDigit(s[i]) && MatchSuffix(s, i + 1).Some? then
      Some(Rest(1, MatchSuffix(s, i + 1).value))
    else if MatchSuffix(s, i).Some? then
      Some(Rest(0, MatchSuffix(s, i).value))
    else
      None
  }

  /** `:?` and the rest, after an hour of `hourLen` digits. */
  function MatchColon(s: string, hourLen: nat): (r: Option<Split>)
    requires hourLen <= |s|
    ensures r.Some? ==> r.value.hourLen == hourLen
  {
    if hourLen < |s| && s[hourLen] == ':' && MatchMinute(s, hourLen + 1).Some? then
      Some(Split.Of(hourLen, true, MatchMinute(s, hourLen + 1).value))
    else if MatchMinute(s, hourLen).Some? then
      Some(Split.Of(hourLen, false, MatchMinute(s, hourLen).value))
    else
      None
  }

  /** The whole pattern, anchored at the start by `re.match`. */
  function MatchSplit(s: string): Option<Split> {
    if 1 <= |s| && IsDigit(s[0]) && MatchColon(s, 1).Some? then
      MatchColon(s, 1)
    else if 2 <= |s| && IsDigit(s[0]) && IsDigit(s[1]) then
      MatchColon(s, 2)
    else
      None
  }

  function GroupsOf(s: string, sp: Split): (g: Groups)
    requires ValidSplit(s, sp)
    ensures WellFormed(g)
  {
    assert AllDigits(s[..sp.hourLen]) by {
      assert s[..sp.hourLen][0] == s[0];
      if sp.hourLen == 2 { assert s[..sp.hourLen][1] == s[1]; }
    }
    Groups(
      s[..sp.hourLen],
      if sp.minuteLen == 0 then None else Some(s[sp.MinuteStart()..sp.SuffixStart()]),
      if sp.meridiemLen == 0 then None else Some(s[sp.MeridiemStart()..sp.End()]))
  }

  /** What any match guarantees about its groups: one or two digits of
      hour, one or two digits of minute if present, and a meridiem of one
      or two letters starting with `a` or `p`. */
  predicate WellFormed(g: Groups) {
    && AllDigits(g.hour) && 1 <= |g.hour| <= 2
    && (g.minute.Some? ==> AllDigits(g.minute.value) && 1 <= |g.minute.value| <= 2)
    && (g.p.Some? ==> 1 <= |g.p.value| <= 2 && IsMeridiemLetter(g.p.value[0]))
  }

  /** `TIME_RE.match(s)` followed by `groupdict()`. */
  function Match(s: string): (r: Option<Groups>)
    ensures r.Some? ==> WellFormed(r.value)
  {
    match MatchSplit(s)
    case None => None
    case Some(sp) =>
      MatchSplitSound(s);
      Some(GroupsOf(s, sp))
  }

  /** `int(groups["hour"])`. */
  function HourValue(g: Groups): (h: nat)
    requires WellFormed(g)
    ensures h <= 99
  {
    DecimalValue(g.hour)
  }

  /** `int(groups["minute"] or 0)`: an absent minute reads as 0. */
  function MinuteValue(g: Groups): (m: nat)
    requires WellFormed(g)
    ensures m <= 99
    ensures g.minute.None? ==> m == 0
  {
    if g.minute.None? then 0 else DecimalValue(g.minute.value)
  }

  /** The meridiem group names the afternoon: `p.lower().startswith('p')`. */
  predicate IsAfternoon(p: string) {
    |p| > 0 && (p[0] == 'p' || p[0] == 'P')
  }

  /** Every meridiem the pattern admits names one half of the day: it is
      the afternoon exactly when it does not start with `a` or `A`. */
  lemma MeridiemHalves(g: Groups)
    requires WellFormed(g) && g.p.Some?
    ensures IsAfternoon(g.p.value) <==> !(g.p.value[0] == 'a' || g.p.value[0] == 'A')
  {
  }

  /** Every cut the matcher returns fits the pattern. */
  lemma SuffixSound(s: string, i: nat)
    requires i <= |s|
    ensures MatchSuffix(s, i).Some? ==> TailFits(s, i, MatchSuffix(s, i).value)
  {
  }

  lemma MinuteSound(s: string, i: nat)
    requires i <= |s|
    ensures MatchMinute(s, i).Some? ==> RestFits(s, i, MatchMinute(s, i).value)
  {
    if i + 2 <= |s| && IsDigit(s[i]) && IsDigit(s[i + 1]) && MatchSuffix(s, i + 2).Some? {
      SuffixSound(s, i + 2);
    } else if i + 1 <= |s| && IsDigit(s[i]) && MatchSuffix(s, i + 1).Some? {
      SuffixSound(s, i + 1);
    } else {
      SuffixSound(s, i);
    }
  }

  lemma ColonSound(s: string, hourLen: nat)
    requires hourLen <= |s|
    ensures var r := MatchColon(s, hourLen);
            r.Some? ==> ColonValid(s, r.value) && RestFits(s, r.value.MinuteStart(), r.value.RestPart())
                        && r.value.hourLen == hourLen
  {
    if hourLen < |s| && s[hourLen] == ':' && MatchMinute(s, hourLen + 1).Some? {
      MinuteSound(s, hourLen + 1);
    } else {
      MinuteSound(s, hourLen);
    }
  }

  lemma MatchSplitSound(s: string)
    ensures MatchSplit(s).Some? ==> ValidSplit(s, MatchSplit(s).value)
  {
    if 1 <= |s| && IsDigit(s[0]) && MatchColon(s, 1).Some? {
      ColonSound(s, 1);
    } else if 2 <= |s| && IsDigit(s[0]) && IsDigit(s[1]) {
      ColonSound(s, 2);
    }
  }

  /** Greedy `\s*` followed by a non-space stops exactly there. */
  lemma SpaceRunExact(s: string, i: nat, n: nat)
    requires i + n < |s| && SpacesBetween(s, i, i + n) && !IsSpace(s[i + n])
    ensures SpaceRun(s, i) == n
  {
  }

  lemma SuffixComplete(s: string, i: nat, t: Tail)
    requires TailFits(s, i, t)
    ensures MatchSuffix(s, i) == Some(t)
  {
    if t.meridiemLen > 0 {
      SpaceRunExact(s, i, t.spaces);
    }
  }

  lemma MinuteComplete(s: string, i: nat, r: Rest)
    requires RestFits(s, i, r)
    ensures var m := MatchMinute(s, i);
            && m.Some? && m.value.minuteLen >= r.minuteLen
            && (m.value.minuteLen == r.minuteLen ==> m.value == r)
  {
    SuffixComplete(s, i + r.minuteLen, r.tail);
    if i + 2 <= |s| && IsDigit(s[i]) && IsDigit(s[i + 1]) && MatchSuffix(s, i + 2).Some? {
      assert MatchMinute(s, i) == Some(Rest(2, MatchSuffix(s, i + 2).value));
    } else if i + 1 <= |s| && IsDigit(s[i]) && MatchSuffix(s, i + 1).Some? {
      assert r.minuteLen <= 1;
      assert MatchMinute(s, i) == Some(Rest(1, MatchSuffix(s, i + 1).value));
    } else {
      assert r.minuteLen == 0;
      assert MatchMinute(s, i) == Some(Rest(0, MatchSuffix(s, i).value));
    }
  }

  /** With no colon taken, the character after the hour cannot be one. */
  lemma NoSkippedColon(s: string, i: nat, r: Rest)
    requires RestFits(s, i, r)
    ensures i < |s| ==> s[i] != ':'
  {
  }

  lemma ColonCompleteTaken(s: string, sp: Split)
    requires sp.colon && sp.hourLen < |s| && s[sp.hourLen] == ':'
    requires RestFits(s, sp.hourLen + 1, sp.RestPart())
    ensures var r := MatchColon(s, sp.hourLen);
            && r.Some? && r.value.colon && r.value.minuteLen >= sp.minuteLen
            && (r.value.minuteLen == sp.minuteLen ==> r.value == sp)
  {
    MinuteComplete(s, sp.hourLen + 1, sp.RestPart());
    assert MatchColon(s, sp.hourLen) == Some(Split.Of(sp.hourLen, true, MatchMinute(s, sp.hourLen + 1).value));
  }

  lemma ColonCompleteSkipped(s: string, sp: Split)
    requires !sp.colon && sp.hourLen <= |s|
    requires RestFits(s, sp.hourLen, sp.RestPart())
    ensures var r := MatchColon(s, sp.hourLen);
            && r.Some? && !r.value.colon && r.value.minuteLen >= sp.minuteLen
            && (r.value.minuteLen == sp.minuteLen ==> r.value == sp)
  {
    MinuteComplete(s, sp.hourLen, sp.RestPart());
    NoSkippedColon(s, sp.hourLen, sp.RestPart());
    assert MatchColon(s, sp.hourLen) == Some(Split.Of(sp.hourLen, false, MatchMinute(s, sp.hourLen).value));
  }

  lemma ColonComplete(s: string, sp: Split)
    requires sp.hourLen <= |s|
    requires ColonValid(s, sp) && RestFits(s, sp.MinuteStart(), sp.RestPart())
    ensures var r := MatchColon(s, sp.hourLen);
            && r.Some? && r.value.colon == sp.colon && r.value.minuteLen >= sp.minuteLen
            && (r.value.minuteLen == sp.minuteLen ==> r.value == sp)
  {
    if sp.colon {
      ColonCompleteTaken(s, sp);
    } else {
      ColonCompleteSkipped(s, sp);
    }
  }

  /** The matcher finds a cut whenever one exists, and it finds the first
      one in backtracking order: the hour takes a second digit only when no
      cut with a one-digit hour exists, and the minute takes as many digits
      as still let the rest match. */
  lemma MatchSplitFirst(s: string, sp: Split)
    requires ValidSplit(s, sp)
    ensures MatchSplit(s).Some?
    ensures MatchSplit(s).value == sp || Precedes(MatchSplit(s).value, sp)
  {
    ColonComplete(s, sp);
    if sp.hourLen == 1 {
      assert MatchSplit(s) == MatchColon(s, 1);
    } else if MatchColon(s, 1).Some? {
      assert MatchSplit(s) == MatchColon(s, 1);
    } else {
      assert MatchSplit(s) == MatchColon(s, 2);
    }
  }

  /** The pattern matches exactly the strings that can be cut along it. */
  lemma MatchIffSplit(s: string)
    ensures Match(s).Some? <==> exists sp :: ValidSplit(s, sp)
  {
    MatchSplitSound(s);
    if sp :| ValidSplit(s, sp) {
      MatchSplitFirst(s, sp);
    }
  }

  /** Conversely, a valid cut that no other valid cut precedes is the one
      the matcher returns. */
  lemma FirstSplitMatches(s: string, sp: Split)
    requires ValidSplit(s, sp)
    requires forall other :: ValidSplit(s, other) ==> !Precedes(other, sp)
    ensures MatchSplit(s) == Some(sp)
    ensures Match(s) == Some(GroupsOf(s, sp))
  {
    MatchSplitFirst(s, sp);
    MatchSplitSound(s);
  }

  /** The suffix of the pattern can be taken in only one way from a given position. */
  lemma TailUnique(s: string, i: nat, t: Tail, u: Tail)
    requires TailFits(s, i, t) && TailFits(s, i, u)
    ensures t == u
  {
    SuffixComplete(s, i, t);
    SuffixComplete(s, i, u);
  }

  /** Whether the colon is taken is fixed by the hour length. */
  lemma ColonDetermined(s: string, a: Split, b: Split)
    requires ValidSplit(s, a) && ValidSplit(s, b) && a.hourLen == b.hourLen
    ensures a.colon == b.colon
  {
    if !a.colon {
      NoSkippedColon(s, a.MinuteStart(), a.RestPart());
    }
    if !b.colon {
      NoSkippedColon(s, b.MinuteStart(), b.RestPart());
    }
  }

  /** Two cuts with the same hour and minute lengths are the same cut, so
      `Precedes` orders the valid cuts of a string strictly. */
  lemma SplitDeterminedByLengths(s: string, a: Split, b: Split)
    requires ValidSplit(s, a) && ValidSplit(s, b)
    requires a.hourLen == b.hourLen && a.minuteLen == b.minuteLen
    ensures a == b
  {
    ColonDetermined(s, a, b);
    assert a.SuffixStart() == b.SuffixStart();
    TailUnique(s, a.SuffixStart(), a.RestPart().tail, b.RestPart().tail);
  }
}
