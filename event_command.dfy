/** `parse_event_command`: reads `[-r] "title" <h>h<m>m [DD.MM.YYYY] @user ...` into the
    fields of a new event. The regular expression becomes a recogniser that takes, at
    each step, the choice Python's backtracking matcher settles on (every part of the
    pattern is greedy, and giving characters back never lets a later part succeed where
    the greedy choice failed); `strptime` becomes a calendar check. */
module EventCommand {
  import opened Text
  import opened Outcomes
  import Calendar

  /** The groups of a successful match. `hours` and `minutes` are the digit strings of
      the `\d+h` and `\d+m` parts of the duration group. */
  datatype Groups = Groups(
    title: string,
    hours: Option<string>,
    minutes: Option<string>,
    date: Option<string>,
    tail: string)

  /** What is left after an optional piece of the pattern: the piece, if it matched. */
  datatype Piece = Piece(part: Option<string>, rest: string)

  /** `(?:-r\s+)?`: the flag and the whitespace after it, when they are there. */
  function AfterFlag(t: string): string {
    if |t| >= 2 && t[0] == '-' && t[1] == 'r' && Span(t[2..], Space) > 0 then t[2 + Span(t[2..], Space)..]
    else t
  }

  /** `(?:\d+u)?`: a run of digits followed by the unit letter `u`. */
  function UnitPart(s: string, u: char): (p: Piece)
    ensures p.part.Some? ==> p.part.value != [] && AllDigits(p.part.value) && s == p.part.value + [u] + p.rest
    ensures p.part.None? ==> p.rest == s
  {
    var d := Span(s, Digit);
    if 0 < d < |s| && s[d] == u then
      assert s == s[..d] + [u] + s[d + 1..];
      Piece(Some(s[..d]), s[d + 1..])
    else Piece(None, s)
  }

  /** `\d{2}\.\d{2}\.\d{4}` */
  predicate IsDateShape(s: string) {
    && |s| == 10
    && IsDigit(s[0]) && IsDigit(s[1]) && s[2] == '.'
    && IsDigit(s[3]) && IsDigit(s[4]) && s[5] == '.'
    && IsDigit(s[6]) && IsDigit(s[7]) && IsDigit(s[8]) && IsDigit(s[9])
  }

  /** `(\d{2}\.\d{2}\.\d{4})?` */
  function DatePart(s: string): (p: Piece)
    ensures p.part.Some? ==> IsDateShape(p.part.value) && s == p.part.value + p.rest
    ensures p.part.None? ==> p.rest == s
  {
    if |s| >= 10 && IsDateShape(s[..10]) then
      assert s == s[..10] + s[10..];
      Piece(Some(s[..10]), s[10..])
    else Piece(None, s)
  }

  /** `\s*` */
  function SkipSpaces(s: string): string {
    s[Span(s, Space)..]
  }

  /** `re.match(pattern, t)` with the pattern
      `^(?:-r\s+)?"([^"]+)"\s+((?:\d+h)?(?:\d+m)?)\s*(\d{2}\.\d{2}\.\d{4})?\s*(.*)$`.
      `.` matches everything but a line feed, so a tail holding one fails the match. */
  function MatchCommand(t: string): (r: Option<Groups>)
    ensures r.Some? ==> r.value.title != [] && '"' !in r.value.title
    ensures r.Some? ==> r.value.hours.Some? ==> r.value.hours.value != [] && AllDigits(r.value.hours.value)
    ensures r.Some? ==> r.value.minutes.Some? ==> r.value.minutes.value != [] && AllDigits(r.value.minutes.value)
    ensures r.Some? ==> r.value.date.Some? ==> IsDateShape(r.value.date.value)
    ensures r.Some? ==> '\n' !in r.value.tail
  {
    var b := AfterFlag(t);
    if b == [] || b[0] != '"' then None
    else
      var n := Span(b[1..], NotQuote);
      if n == 0 || 1 + n == |b| then None
      else
        var title := b[1..1 + n];
        assert forall k :: 0 <= k < |title| ==> title[k] == b[1..][k];
        var afterQuote := b[2 + n..];
        var w := Span(afterQuote, Space);
        if w == 0 then None
        else
          var h := UnitPart(afterQuote[w..], 'h');
          var m := UnitPart(h.rest, 'm');
          var d := DatePart(SkipSpaces(m.rest));
          var tail := SkipSpaces(d.rest);
          if '\n' in tail then None
          else Some(Groups(title, h.part, m.part, d.part, tail))
  }

  /** The duration group `duration_str`, as matched. */
  function DurationText(g: Groups): string {
    (if g.hours.Some? then g.hours.value + "h" else "")
      + (if g.minutes.Some? then g.minutes.value + "m" else "")
  }

  /** A run of digits starts at `j` and the unit letter `u` follows the whole run: where
      `(\d+)u` matches, for a letter `u` that is not a digit. */
  predicate UnitAt(s: string, u: char, j: nat) {
    j < |s| && Span(s[j..], Digit) > 0 && j + Span(s[j..], Digit) < |s| && s[j + Span(s[j..], Digit)] == u
  }

  /** The value of the run of digits at `j`. */
  function RunValue(s: string, j: nat): nat
    requires j <= |s|
  {
    var d := Span(s[j..], Digit);
    assert AllDigits(s[j..j + d]) by { assert forall k :: 0 <= k < d ==> s[j..j + d][k] == s[j..][k]; }
    DigitsValue(s[j..j + d])
  }

  /** `(\d+)u` matches nowhere at or after `i`. */
  predicate NoUnitFrom(s: string, u: char, i: nat) {
    forall j :: i <= j < |s| ==> !UnitAt(s, u, j)
  }

  /** The leftmost place at or after `i` where `(\d+)u` matches is `j`. */
  predicate FirstUnitAt(s: string, u: char, i: nat, j: nat) {
    i <= j && UnitAt(s, u, j) && forall k :: i <= k < j ==> !UnitAt(s, u, k)
  }

  /** `re.search(r'(\d+)u', s)`, taking `int` of the group: the digits of the leftmost run
      that the unit letter `u` follows, or `None` when there is none. */
  function SearchUnit(s: string, u: char): (r: Option<nat>)
    ensures r.None? ==> NoUnitFrom(s, u, 0)
    ensures r.Some? ==> exists j :: FirstUnitAt(s, u, 0, j) && r.value == RunValue(s, j)
  {
    SearchFrom(s, u, 0)
  }

  /** The search from position `i` on. */
  function SearchFrom(s: string, u: char, i: nat): (r: Option<nat>)
    requires i <= |s|
    ensures r.None? ==> NoUnitFrom(s, u, i)
    ensures r.Some? ==> exists j :: FirstUnitAt(s, u, i, j) && r.value == RunValue(s, j)
    decreases |s| - i
  {
    if i == |s| then None
    else if UnitAt(s, u, i) then Some(RunValue(s, i))
    else SearchFrom(s, u, i + 1)
  }

  /** `datetime.strptime(ds, '%d.%m.%Y').date()`, or `None` where it raises `ValueError`:
      day, month and year must make a date of the proleptic Gregorian calendar with a
      year from 1 to 9999. */
  function DateOf(ds: string): (r: Option<Calendar.Date>)
    requires IsDateShape(ds)
    ensures r.Some? ==> Calendar.IsValidDate(r.value)
  {
    assert AllDigits(ds[0..2]) && AllDigits(ds[3..5]) && AllDigits(ds[6..10]);
    var d := Calendar.Date(DigitsValue(ds[6..10]), DigitsValue(ds[3..5]), DigitsValue(ds[0..2]));
    if Calendar.IsValidDate(d) then Some(d) else None
  }

  /** `[u.lstrip('@') for u in tokens if u.startswith('@')]`: at most one name per token,
      none of them starting with `@`. */
  function AtNames(tokens: seq<string>): (names: seq<string>)
    ensures |names| <= |tokens|
    ensures forall k :: 0 <= k < |names| ==> names[k] == [] || names[k][0] != '@'
  {
    if tokens == [] then []
    else
      var rest := AtNames(tokens[1..]);
      var t := tokens[0];
      if |t| > 0 && t[0] == '@' then [LstripChar(t, '@')] + rest else rest
  }

  predicate StartsWithAt(t: string) {
    t != [] && t[0] == '@'
  }

  /** `names` are read off `tokens` at the ascending positions `idx`: the positions are
      exactly those of the tokens that start with `@`, and each name is its token with
      every leading `@` removed. */
  predicate AtTokensAt(tokens: seq<string>, names: seq<string>, idx: seq<nat>) {
    && |idx| == |names|
    && (forall a, b :: 0 <= a < b < |idx| ==> idx[a] < idx[b])
    && (forall k :: 0 <= k < |idx| ==> Picks(tokens, names, idx, k))
    && (forall j :: 0 <= j < |tokens| && StartsWithAt(tokens[j]) ==> Hit(idx, j))
  }

  /** Position `k` of `idx` points at an `@` token whose name is `names[k]`. */
  predicate Picks(tokens: seq<string>, names: seq<string>, idx: seq<nat>, k: nat)
    requires k < |idx| && |idx| == |names|
  {
    idx[k] < |tokens| && StartsWithAt(tokens[idx[k]]) && names[k] == LstripChar(tokens[idx[k]], '@')
  }

  /** `j` is one of the positions `idx`. */
  predicate Hit(idx: seq<nat>, j: nat) {
    exists k :: 0 <= k < |idx| && idx[k] == j
  }

  /** The names are those of the `@` tokens, one for each, in token order. */
  ghost predicate NamesOfTokens(tokens: seq<string>, names: seq<string>) {
    exists idx :: AtTokensAt(tokens, names, idx)
  }

  /** The positions of the tokens that start with `@`, ascending. */
  function AtPositions(tokens: seq<string>): seq<nat> {
    if tokens == [] then []
    else
      var rest := AtPositions(tokens[1..]);
      var shifted := Shift(rest);
      if StartsWithAt(tokens[0]) then [0] + shifted else shifted
  }

  /** The fields of the dictionary `parse_event_command` returns. */
  datatype Command = Command(
    title: string,
    durationMinutes: nat,
    isRecurring: bool,
    startDate: Option<Calendar.Date>,
    usernames: seq<string>)

  function PartValue(part: Option<string>): nat
    requires part.Some? ==> AllDigits(part.value)
  {
    if part.Some? then DigitsValue(part.value) else 0
  }

  /** What `parse_event_command(text)` returns, stated on the matched groups: the duration
      is 60 times the hours plus the minutes, and a zero duration or an impossible date
      gives `None`. */
  function ParseCommand(text: string): Option<Command> {
    match MatchCommand(Strip(text))
    case None => None
    case Some(g) => ParseGroups(text, g)
  }

  /** `ParseCommand` once the pattern has matched with groups `g`. */
  function ParseGroups(text: string, g: Groups): Option<Command>
    requires g.hours.Some? ==> AllDigits(g.hours.value)
    requires g.minutes.Some? ==> AllDigits(g.minutes.value)
    requires g.date.Some? ==> IsDateShape(g.date.value)
  {
      var duration := 60 * PartValue(g.hours) + PartValue(g.minutes);
      if duration == 0 then None
      else if g.date.Some? && DateOf(g.date.value).None? then None
      else
        var date := if g.date.Some? then DateOf(g.date.value) else None;
        var names := if g.tail != [] then AtNames(Split(g.tail)) else [];
        Some(Command(Strip(g.title), duration, "-r" in Split(text), date, names))
  }

  /** The parser as written: the duration is accumulated from two regular-expression
      searches in the duration group. */
  method ParseEventCommand(text: string) returns (r: Option<Command>)
    ensures r == ParseCommand(text)
  {
    var m := MatchCommand(Strip(text));
    if m.None? {
      return None;
    }
    r := CommandOfGroups(text, m.value);
  }

  /** The rest of the parser once the pattern has matched. */
  method CommandOfGroups(text: string, g: Groups) returns (r: Option<Command>)
    requires g.hours.Some? ==> g.hours.value != [] && AllDigits(g.hours.value)
    requires g.minutes.Some? ==> g.minutes.value != [] && AllDigits(g.minutes.value)
    requires g.date.Some? ==> IsDateShape(g.date.value)
    ensures r == ParseGroups(text, g)
  {
    var isRecurring := "-r" in Split(text);
    var durationMinutes := DurationMinutes(g);
    if durationMinutes == 0 {
      return None;
    }
    var startDate: Option<Calendar.Date> := None;
    if g.date.Some? {
      startDate := DateOf(g.date.value);
      if startDate.None? {
        return None;
      }
    }
    var usernames := Usernames(g.tail);
    r := Some(Command(Strip(g.title), durationMinutes, isRecurring, startDate, usernames));
  }

  /** The names of the `@` tokens of `usernames_str`, none when it is empty. */
  method Usernames(tail: string) returns (usernames: seq<string>)
    ensures usernames == if tail != [] then AtNames(Split(tail)) else []
  {
    usernames := [];
    if tail != [] {
      usernames := AtNames(Split(tail));
    }
  }

  /** `duration_minutes` grows by 60 times the `(\d+)h` search and by the
      `(\d+)m` search, each done only when its letter is in `duration_str`. */
  method DurationMinutes(g: Groups) returns (durationMinutes: nat)
    requires g.hours.Some? ==> g.hours.value != [] && AllDigits(g.hours.value)
    requires g.minutes.Some? ==> g.minutes.value != [] && AllDigits(g.minutes.value)
    ensures durationMinutes == 60 * PartValue(g.hours) + PartValue(g.minutes)
  {
    var durationStr := DurationText(g);
    DurationSearch(g);
    durationMinutes := 0;
    if 'h' in durationStr {
      var hMatch := SearchUnit(durationStr, 'h');
      if hMatch.Some? {
        durationMinutes := durationMinutes + hMatch.value * 60;
      }
    }
    if 'm' in durationStr {
      var mMatch := SearchUnit(durationStr, 'm');
      if mMatch.Some? {
        durationMinutes := durationMinutes + mMatch.value;
      }
    }
  }

  // ---------------------------------------------------------------------------
  // The searches in the duration group find its two parts

  /** In a matched duration group, `'h' in duration_str` holds exactly when the hours part
      is there, and the search finds its digits; likewise for the minutes. */
  lemma DurationSearch(g: Groups)
    requires g.hours.Some? ==> g.hours.value != [] && AllDigits(g.hours.value)
    requires g.minutes.Some? ==> g.minutes.value != [] && AllDigits(g.minutes.value)
    ensures var s := DurationText(g);
      && ('h' in s <==> g.hours.Some?)
      && ('m' in s <==> g.minutes.Some?)
      && (g.hours.Some? ==> SearchUnit(s, 'h') == Some(DigitsValue(g.hours.value)))
      && (g.minutes.Some? ==> SearchUnit(s, 'm') == Some(DigitsValue(g.minutes.value)))
  {
    var hs := if g.hours.Some? then g.hours.value + "h" else "";
    var ms := if g.minutes.Some? then g.minutes.value + "m" else "";
    assert hs + ms == DurationText(g);
    assert 'h' !in ms && 'm' !in hs;
    HoursSearch(g, hs, ms);
    MinutesSearch(g, hs, ms);
  }

  lemma HoursSearch(g: Groups, hs: string, ms: string)
    requires g.hours.Some? ==> g.hours.value != [] && AllDigits(g.hours.value)
    requires hs == if g.hours.Some? then g.hours.value + "h" else ""
    requires 'h' !in ms
    ensures 'h' in hs + ms <==> g.hours.Some?
    ensures g.hours.Some? ==> SearchUnit(hs + ms, 'h') == Some(DigitsValue(g.hours.value))
  {
    var s := hs + ms;
    if g.hours.Some? {
      assert s[|g.hours.value|] == 'h';
      FoundAt(g.hours.value, 'h', ms);
    }
  }

  lemma MinutesSearch(g: Groups, hs: string, ms: string)
    requires g.hours.Some? ==> g.hours.value != [] && AllDigits(g.hours.value)
    requires g.minutes.Some? ==> g.minutes.value != [] && AllDigits(g.minutes.value)
    requires hs == if g.hours.Some? then g.hours.value + "h" else ""
    requires ms == if g.minutes.Some? then g.minutes.value + "m" else ""
    requires 'm' !in hs
    ensures 'm' in hs + ms <==> g.minutes.Some?
    ensures g.minutes.Some? ==> SearchUnit(hs + ms, 'm') == Some(DigitsValue(g.minutes.value))
  {
    if g.minutes.Some? {
      if g.hours.Some? {
        MinutesAfterHours(g.hours.value, g.minutes.value);
        assert hs + ms == g.hours.value + "h" + (g.minutes.value + "m");
      } else {
        assert hs + ms == g.minutes.value + "m" + "";
        FoundAt(g.minutes.value, 'm', "");
      }
      assert (hs + ms)[|hs| + |g.minutes.value|] == 'm';
    }
  }

  /** The search for `m` in `<h>h<m>m` finds the minutes digits. */
  lemma MinutesAfterHours(hd: string, md: string)
    requires hd != [] && AllDigits(hd) && md != [] && AllDigits(md)
    ensures SearchUnit(hd + "h" + (md + "m"), 'm') == Some(DigitsValue(md))
  {
    var s := hd + "h" + (md + "m");
    var n := |hd|;
    assert s[n] == 'h';
    assert forall k :: 0 <= k < n ==> s[k] == hd[k];
    SkipHours(s, n, 0);
    assert s[n + 1..] == md + ['m'];
    FoundLater(s, n + 1, md, 'm');
  }

  /** Digits at `i` followed by the unit letter are where the search from `i` stops. */
  lemma FoundHere(s: string, i: nat, digits: string, rest: string, u: char)
    requires i <= |s| && s[i..] == digits + rest && rest != [] && rest[0] == u
    requires digits != [] && AllDigits(digits) && !IsDigit(u)
    ensures UnitAt(s, u, i) && RunValue(s, i) == DigitsValue(digits)
  {
    var n := |digits|;
    SpanExact(digits, rest, Digit);
    assert s[i + n] == s[i..][n] == rest[0];
    assert s[i..i + n] == s[i..][..n] == digits;
  }

  /** The search succeeds at once on digits followed by the unit letter. */
  lemma FoundAt(digits: string, u: char, rest: string)
    requires digits != [] && AllDigits(digits) && !IsDigit(u)
    ensures SearchUnit(digits + [u] + rest, u) == Some(DigitsValue(digits))
  {
    var s := digits + [u] + rest;
    assert s[0..] == digits + ([u] + rest);
    FoundHere(s, 0, digits, [u] + rest, u);
  }

  /** Digits followed by the unit letter at position `i` are found by a search from `i`. */
  lemma FoundLater(s: string, i: nat, digits: string, u: char)
    requires i <= |s| && s[i..] == digits + [u]
    requires digits != [] && AllDigits(digits) && !IsDigit(u)
    ensures SearchFrom(s, u, i) == Some(DigitsValue(digits))
  {
    FoundHere(s, i, digits, [u], u);
  }

  /** A search for `m` passes over the hours digits and the `h` that ends them. */
  lemma {:induction false} SkipHours(s: string, n: nat, j: nat)
    requires j <= n < |s| && s[n] == 'h'
    requires forall k :: 0 <= k < n ==> IsDigit(s[k])
    ensures SearchFrom(s, 'm', j) == SearchFrom(s, 'm', n + 1)
    decreases n - j
  {
    if j < n {
      SkipHours(s, n, j + 1);
    }
    HoursNoMinutes(s, n, j);
    SearchSkips(s, 'm', j);
  }

  /** No `(\d+)m` match starts inside the hours digits or at their `h`. */
  lemma HoursNoMinutes(s: string, n: nat, j: nat)
    requires j <= n < |s| && s[n] == 'h'
    requires forall k :: 0 <= k < n ==> IsDigit(s[k])
    ensures !UnitAt(s, 'm', j)
  {
    var x, y := s[j..n], s[n..];
    assert s[j..] == x + y;
    assert forall k :: 0 <= k < |x| ==> x[k] == s[j + k];
    SpanExact(x, y, Digit);
    assert s[j + |x|] == 'h';
  }

  /** Where `(\d+)u` does not match, the search moves on to the next position. */
  lemma SearchSkips(s: string, u: char, j: nat)
    requires j < |s| && !UnitAt(s, u, j)
    ensures SearchFrom(s, u, j) == SearchFrom(s, u, j + 1)
  {
  }

  // ---------------------------------------------------------------------------
  // What any successful parse gives

  /** Each token that starts with `@` gives its name, with all of its leading `@` removed.
      `AtNamesExact` adds that there are no other names and that they keep token order. */
  lemma {:induction false} AtNamesMeaning(tokens: seq<string>)
    ensures var names := AtNames(tokens);
      forall k :: 0 <= k < |tokens| && tokens[k] != [] && tokens[k][0] == '@' ==> LstripChar(tokens[k], '@') in names
  {
    if tokens != [] {
      AtNamesMeaning(tokens[1..]);
      var rest := AtNames(tokens[1..]);
      forall k | 0 <= k < |tokens| && tokens[k] != [] && tokens[k][0] == '@'
        ensures LstripChar(tokens[k], '@') in AtNames(tokens)
      {
        if k > 0 {
          assert tokens[1..][k - 1] == tokens[k];
        }
      }
    }
  }

  /** The names of the `@` tokens are exactly those read at the `@` positions, in
      ascending order. */
  lemma {:induction false} AtNamesExact(tokens: seq<string>)
    ensures AtTokensAt(tokens, AtNames(tokens), AtPositions(tokens))
  {
    if tokens != [] {
      AtNamesExact(tokens[1..]);
      var ri := AtPositions(tokens[1..]);
      var si := Shift(ri);
      AtShift(tokens, AtNames(tokens[1..]), ri);
      if StartsWithAt(tokens[0]) {
        assert AtPositions(tokens) == [0] + si;
        AtCons(tokens, AtNames(tokens[1..]), si);
      } else {
        assert AtPositions(tokens) == si;
      }
    }
  }

  /** Positions one further on. */
  function Shift(idx: seq<nat>): (r: seq<nat>)
    ensures |r| == |idx| && forall k :: 0 <= k < |idx| ==> r[k] == idx[k] + 1
  {
    seq(|idx|, k requires 0 <= k < |idx| => idx[k] + 1)
  }

  /** Names read off the tokens after the first, at positions one further on, are read off
      the tokens from the first on. */
  lemma AtShift(tokens: seq<string>, rn: seq<string>, ri: seq<nat>)
    requires tokens != [] && AtTokensAt(tokens[1..], rn, ri)
    ensures var si := Shift(ri);
      && |si| == |rn|
      && (forall a, b :: 0 <= a < b < |si| ==> si[a] < si[b])
      && (forall k :: 0 <= k < |si| ==> 0 < si[k] && Picks(tokens, rn, si, k))
      && (forall j :: 0 < j < |tokens| && StartsWithAt(tokens[j]) ==> Hit(si, j))
  {
    ShiftPicks(tokens, rn, ri);
    ShiftHits(tokens, ri);
  }

  /** Each shifted position picks the same token and name as before. */
  lemma ShiftPicks(tokens: seq<string>, rn: seq<string>, ri: seq<nat>)
    requires tokens != [] && |ri| == |rn|
    requires forall k :: 0 <= k < |ri| ==> Picks(tokens[1..], rn, ri, k)
    ensures forall k :: 0 <= k < |ri| ==> 0 < Shift(ri)[k] && Picks(tokens, rn, Shift(ri), k)
  {
    var t := tokens[1..];
    var si := Shift(ri);
    forall k | 0 <= k < |si| ensures 0 < si[k] && Picks(tokens, rn, si, k) {
      assert Picks(t, rn, ri, k);
      assert tokens[si[k]] == t[ri[k]];
    }
  }

  /** Each `@` token after the first is at a shifted position. */
  lemma ShiftHits(tokens: seq<string>, ri: seq<nat>)
    requires tokens != []
    requires forall j :: 0 <= j < |tokens[1..]| && StartsWithAt(tokens[1..][j]) ==> Hit(ri, j)
    ensures forall j :: 0 < j < |tokens| && StartsWithAt(tokens[j]) ==> Hit(Shift(ri), j)
  {
    var t := tokens[1..];
    var si := Shift(ri);
    forall j | 0 < j < |tokens| && StartsWithAt(tokens[j]) ensures Hit(si, j) {
      assert t[j - 1] == tokens[j];
      assert Hit(ri, j - 1);
      var k :| 0 <= k < |ri| && ri[k] == j - 1;
      assert si[k] == j;
    }
  }

  /** The step of `AtNamesExact` where the first token starts with `@`. */
  lemma AtCons(tokens: seq<string>, rn: seq<string>, si: seq<nat>)
    requires tokens != [] && StartsWithAt(tokens[0]) && |si| == |rn|
    requires forall a, b :: 0 <= a < b < |si| ==> si[a] < si[b]
    requires forall k :: 0 <= k < |si| ==> 0 < si[k] && Picks(tokens, rn, si, k)
    requires forall j :: 0 < j < |tokens| && StartsWithAt(tokens[j]) ==> Hit(si, j)
    ensures AtTokensAt(tokens, [LstripChar(tokens[0], '@')] + rn, [0] + si)
  {
    var idx := [0] + si;
    forall j | 0 <= j < |tokens| && StartsWithAt(tokens[j]) ensures Hit(idx, j) {
      if j == 0 {
        assert idx[0] == 0;
      } else {
        assert Hit(si, j);
        var k :| 0 <= k < |si| && si[k] == j;
        assert idx[k + 1] == j;
      }
    }
    ConsPicks(tokens, rn, si);
    ConsOrdered(si);
  }

  /** The first `@` token's name goes in front of the others. */
  lemma ConsPicks(tokens: seq<string>, rn: seq<string>, si: seq<nat>)
    requires tokens != [] && StartsWithAt(tokens[0]) && |si| == |rn|
    requires forall k :: 0 <= k < |si| ==> Picks(tokens, rn, si, k)
    ensures forall k :: 0 <= k < |si| + 1 ==> Picks(tokens, [LstripChar(tokens[0], '@')] + rn, [0] + si, k)
  {
    var idx := [0] + si;
    var names := [LstripChar(tokens[0], '@')] + rn;
    forall k | 0 <= k < |idx| ensures Picks(tokens, names, idx, k) {
      if k > 0 {
        assert Picks(tokens, rn, si, k - 1);
        assert idx[k] == si[k - 1] && names[k] == rn[k - 1];
      }
    }
  }

  /** Position 0 in front of ascending positive positions keeps them ascending. */
  lemma ConsOrdered(si: seq<nat>)
    requires forall a, b :: 0 <= a < b < |si| ==> si[a] < si[b]
    requires forall k :: 0 <= k < |si| ==> 0 < si[k]
    ensures forall a, b :: 0 <= a < b < |si| + 1 ==> ([0] + si)[a] < ([0] + si)[b]
  {
    var idx := [0] + si;
    forall a, b | 0 <= a < b < |idx| ensures idx[a] < idx[b] {
      assert idx[b] == si[b - 1];
      if a > 0 {
        assert idx[a] == si[a - 1];
      }
    }
  }

  /** The names of two token lists one after the other are the first list's names
      followed by the second's. */
  lemma {:induction false} AtNamesAppend(a: seq<string>, b: seq<string>)
    ensures AtNames(a + b) == AtNames(a) + AtNames(b)
  {
    if a != [] {
      assert (a + b)[1..] == a[1..] + b;
      AtNamesAppend(a[1..], b);
    } else {
      assert a + b == b;
    }
  }

  /** The title is the quoted text stripped, so it holds no `"`. */
  lemma TitleNoQuote(title: string)
    requires '"' !in title
    ensures '"' !in Strip(title)
  {
    var i := Span(title, Space);
    var r := Strip(title);
    forall k | 0 <= k < |r| ensures r[k] != '"' {
      assert r[k] == title[i + k];
    }
  }

  /** A command the parser accepts has a positive duration, a stripped title without `"`,
      the `-r` flag exactly when `-r` is a whitespace token of the text, a valid date when
      one is given, and as names those of the `@` tokens of the tail, in token order, with
      their leading `@` removed. */
  lemma ParsedFields(text: string)
    ensures var r := ParseCommand(text);
      r.Some? ==> FieldsHold(text, TailOf(text), r.value)
  {
    var m := MatchCommand(Strip(text));
    if m.Some? {
      GroupsFields(text, m.value);
    }
  }

  /** The text matched by the `(.*)` group, after the duration and the optional date;
      empty when the pattern does not match. */
  function TailOf(text: string): string {
    match MatchCommand(Strip(text))
    case None => []
    case Some(g) => g.tail
  }

  ghost predicate FieldsHold(text: string, tail: string, c: Command) {
    && c.durationMinutes > 0
    && '"' !in c.title
    && c.title == Strip(c.title)
    && (c.isRecurring <==> "-r" in Split(text))
    && (c.startDate.Some? ==> Calendar.IsValidDate(c.startDate.value))
    && (forall k :: 0 <= k < |c.usernames| ==> c.usernames[k] == [] || c.usernames[k][0] != '@')
    && NamesOfTokens(Split(tail), c.usernames)
  }

  /** `ParsedFields` once the pattern has matched with groups `g`. */
  lemma GroupsFields(text: string, g: Groups)
    requires g.hours.Some? ==> AllDigits(g.hours.value)
    requires g.minutes.Some? ==> AllDigits(g.minutes.value)
    requires g.date.Some? ==> IsDateShape(g.date.value)
    requires '"' !in g.title
    ensures var r := ParseGroups(text, g);
      r.Some? ==> FieldsHold(text, g.tail, r.value)
  {
    var r := ParseGroups(text, g);
    if r.Some? {
      TitleNoQuote(g.title);
      StripUnchanged(Strip(g.title));
      TailNames(g.tail);
      assert r.value.title == Strip(g.title);
      assert r.value.usernames == if g.tail != [] then AtNames(Split(g.tail)) else [];
    }
  }

  /** The names part of `GroupsFields`. */
  lemma TailNames(tail: string)
    ensures NamesOfTokens(Split(tail), if tail != [] then AtNames(Split(tail)) else [])
  {
    var tokens := Split(tail);
    AtNamesExact(tokens);
    if tail == [] {
      assert tokens == [];
    }
    assert AtTokensAt(tokens, AtNames(tokens), AtPositions(tokens));
  }

  // ---------------------------------------------------------------------------
  // Writing a command and reading it back

  /** The parts of a command as a user writes them. */
  datatype Request = Request(
    isRecurring: bool,
    title: string,
    hours: Option<nat>,
    minutes: Option<nat>,
    date: Option<Calendar.Date>,
    usernames: seq<string>)

  function UnitText(n: Option<nat>, u: char): string {
    if n.Some? then Decimal(n.value) + [u] else ""
  }

  /** `<h>h<m>m`, either part optional. */
  function DurationTextOf(q: Request): string {
    UnitText(q.hours, 'h') + UnitText(q.minutes, 'm')
  }

  /** `DD.MM.YYYY` */
  function DateDigits(d: Calendar.Date): (s: string)
    requires 0 <= d.day && 0 <= d.month && 0 <= d.year
    ensures IsDateShape(s)
  {
    Padded(d.day, 2) + "." + Padded(d.month, 2) + "." + Padded(d.year, 4)
  }

  function DateText(date: Option<Calendar.Date>): string
    requires date.Some? ==> 0 <= date.value.day && 0 <= date.value.month && 0 <= date.value.year
  {
    if date.Some? then " " + DateDigits(date.value) else ""
  }

  function Mentions(users: seq<string>): (r: seq<string>)
    ensures |r| == |users|
  {
    seq(|users|, k requires 0 <= k < |users| => "@" + users[k])
  }

  function UsersText(users: seq<string>): string {
    if users == [] then "" else " " + Join(Mentions(users))
  }

  /** A name a mention can carry and get back: no whitespace or `-`, no leading `@`. */
  predicate IsUsername(u: string) {
    && (forall k :: 0 <= k < |u| ==> !IsSpace(u[k]) && u[k] != '-')
    && (u == [] || u[0] != '@')
  }

  predicate WellFormed(q: Request) {
    && q.title != [] && '"' !in q.title && '-' !in q.title
    && !IsSpace(q.title[0]) && !IsSpace(q.title[|q.title| - 1])
    && (q.hours.Some? || q.minutes.Some?)
    && (q.date.Some? ==> 0 <= q.date.value.day < 100 && 0 <= q.date.value.month < 100 && 0 <= q.date.value.year < 10000)
    && (forall k :: 0 <= k < |q.usernames| ==> IsUsername(q.usernames[k]))
  }

  /** Everything after the closing quote of the title. */
  function RestText(q: Request): string
    requires WellFormed(q)
  {
    " " + DurationTextOf(q) + DateText(q.date) + UsersText(q.usernames)
  }

  function Body(q: Request): string
    requires WellFormed(q)
  {
    "\"" + q.title + "\"" + RestText(q)
  }

  /** The command text `[-r ]"title" <h>h<m>m[ DD.MM.YYYY][ @user ...]`. */
  function Render(q: Request): string
    requires WellFormed(q)
  {
    (if q.isRecurring then "-r " else "") + Body(q)
  }

  /** What the parser should make of a written command. */
  function Expected(q: Request): Option<Command> {
    var duration := 60 * (if q.hours.Some? then q.hours.value else 0) + (if q.minutes.Some? then q.minutes.value else 0);
    if duration == 0 then None
    else if q.date.Some? && !Calendar.IsValidDate(q.date.value) then None
    else Some(Command(q.title, duration, q.isRecurring, q.date, q.usernames))
  }

  /** Reading a written command back gives its parts: the title, 60 times the hours plus
      the minutes, the flag, the date and the names; a zero duration or an impossible
      date is refused. */
  lemma ParseRender(q: Request)
    requires WellFormed(q)
    ensures ParseCommand(Render(q)) == Expected(q)
  {
    var t := Render(q);
    RenderStripped(q);
    MatchRender(q);
    RecurringToken(q);
    var g := GroupsOf(q);
    StripUnchanged(q.title);
    DurationBack(q, g);
    DateBack(q, g);
    NamesBack(q, g);
    GroupsMeaning(q, t, g);
  }

  function DigitsOf(n: Option<nat>): Option<string> {
    if n.Some? then Some(Decimal(n.value)) else None
  }

  /** The groups the pattern captures from a written command. */
  function GroupsOf(q: Request): Groups
    requires WellFormed(q)
  {
    Groups(q.title, DigitsOf(q.hours), DigitsOf(q.minutes),
           if q.date.Some? then Some(DateDigits(q.date.value)) else None,
           if q.usernames == [] then "" else Join(Mentions(q.usernames)))
  }

  // Reading the pieces of a written command one after another.

  lemma RenderStripped(q: Request)
    requires WellFormed(q)
    ensures Strip(Render(q)) == Render(q)
  {
    var t := Render(q);
    RenderLast(q);
    assert t[0] == '-' || t[0] == '"';
    StripUnchanged(t);
  }

  /** A written command ends in a name, a date digit or a unit letter. */
  lemma RenderLast(q: Request)
    requires WellFormed(q)
    ensures var t := Render(q); !IsSpace(t[|t| - 1])
  {
    var r := RestText(q);
    RestLast(q);
    LastOf((if q.isRecurring then "-r " else ""), Body(q));
    LastOf("\"" + q.title + "\"", r);
  }

  lemma RestLast(q: Request)
    requires WellFormed(q)
    ensures var r := RestText(q); r != [] && !IsSpace(r[|r| - 1])
  {
    if q.usernames != [] {
      UsersLast(q.usernames);
      LastOf(" " + DurationTextOf(q) + DateText(q.date), UsersText(q.usernames));
    } else {
      NoUsersLast(q);
    }
  }

  /** The mentions end with the last user's name, or with `@` when it is empty. */
  lemma UsersLast(users: seq<string>)
    requires users != [] && forall k :: 0 <= k < |users| ==> IsUsername(users[k])
    ensures var ut := UsersText(users); ut != [] && !IsSpace(ut[|ut| - 1])
  {
    var ms := Mentions(users);
    var u := users[|users| - 1];
    assert ms[|ms| - 1] == "@" + u;
    JoinLast(ms);
    LastOf(" ", Join(ms));
    assert IsUsername(u);
  }

  lemma NoUsersLast(q: Request)
    requires WellFormed(q) && q.usernames == []
    ensures var r := RestText(q); !IsSpace(r[|r| - 1])
  {
    var d, dt := DurationTextOf(q), DateText(q.date);
    DurationLast(q);
    assert RestText(q) == " " + d + dt;
    if q.date.Some? {
      LastOf(" " + d, dt);
      LastOf(" ", DateDigits(q.date.value));
    } else {
      assert RestText(q) == " " + d;
      LastOf(" ", d);
    }
  }

  lemma DurationLast(q: Request)
    requires q.hours.Some? || q.minutes.Some?
    ensures var d := DurationTextOf(q); d != [] && (d[|d| - 1] == 'h' || d[|d| - 1] == 'm')
  {
    if q.minutes.Some? {
      LastOf(UnitText(q.hours, 'h'), UnitText(q.minutes, 'm'));
    } else {
      assert DurationTextOf(q) == UnitText(q.hours, 'h') + [];
    }
  }

  lemma LastOf(x: string, y: string)
    requires y != []
    ensures (x + y)[|x + y| - 1] == y[|y| - 1]
  {
  }

  lemma AfterFlagRender(q: Request)
    requires WellFormed(q)
    ensures AfterFlag(Render(q)) == Body(q)
  {
    var t := Render(q);
    var b := Body(q);
    if q.isRecurring {
      assert t == "-r" + (" " + b);
      assert t[2..] == " " + b;
      SpanExact(" ", b, Space);
      assert t[3..] == b;
    } else {
      assert t == b && t[0] == '"';
    }
  }

  /** The title is read up to its closing quote, and one space follows. */
  lemma QuoteStep(q: Request)
    requires WellFormed(q)
    ensures var b, n := Body(q), |q.title|;
      && Span(b[1..], NotQuote) == n && 1 + n < |b|
      && b[1..1 + n] == q.title && b[2 + n..] == RestText(q)
  {
    var b, n := Body(q), |q.title|;
    var r := RestText(q);
    assert b[1..] == q.title + ("\"" + r);
    SpanExact(q.title, "\"" + r, NotQuote);
    assert b[1..1 + n] == q.title;
    assert b[2 + n..] == r;
  }

  /** The duration text starts with a digit. */
  lemma DurationFirst(q: Request)
    requires q.hours.Some? || q.minutes.Some?
    ensures var d := DurationTextOf(q); d != [] && IsDigit(d[0])
  {
  }

  lemma RestStep(q: Request)
    requires WellFormed(q)
    ensures var r := RestText(q);
      Span(r, Space) == 1 && r[1..] == DurationTextOf(q) + (DateText(q.date) + UsersText(q.usernames))
  {
    var r := RestText(q);
    var d := DurationTextOf(q);
    var after := d + (DateText(q.date) + UsersText(q.usernames));
    assert r == " " + after;
    DurationFirst(q);
    assert after[0] == d[0];
    SpanExact(" ", after, Space);
  }

  /** `(?:\d+u)?` on digits followed by a letter. */
  lemma UnitPartAt(digits: string, v: char, rest: string, u: char)
    requires digits != [] && AllDigits(digits) && !IsDigit(v)
    ensures UnitPart(digits + [v] + rest, u) ==
      if v == u then Piece(Some(digits), rest) else Piece(None, digits + [v] + rest)
  {
    var s := digits + [v] + rest;
    assert s == digits + ([v] + rest);
    SpanExact(digits, [v] + rest, Digit);
    assert s[..|digits|] == digits && s[|digits| + 1..] == rest;
  }

  /** Both parts of the duration are read, and what follows is left. */
  lemma DurationStep(q: Request, after: string)
    requires WellFormed(q)
    requires after == [] || after[0] == ' '
    ensures var h := UnitPart(DurationTextOf(q) + after, 'h');
      && h == Piece(DigitsOf(q.hours), UnitText(q.minutes, 'm') + after)
      && UnitPart(h.rest, 'm') == Piece(DigitsOf(q.minutes), after)
  {
    var mt := UnitText(q.minutes, 'm');
    if q.hours.Some? {
      var hd := Decimal(q.hours.value);
      assert DurationTextOf(q) + after == hd + ['h'] + (mt + after);
      UnitPartAt(hd, 'h', mt + after, 'h');
    } else {
      assert DurationTextOf(q) + after == mt + after;
      var md := Decimal(q.minutes.value);
      assert mt + after == md + ['m'] + after;
      UnitPartAt(md, 'm', after, 'h');
    }
    if q.minutes.Some? {
      var md := Decimal(q.minutes.value);
      assert mt + after == md + ['m'] + after;
      UnitPartAt(md, 'm', after, 'm');
    } else {
      assert mt + after == after;
      assert after == [] || Span(after, Digit) == 0;
    }
  }

  /** `\s*`, the optional date and `\s*` again leave exactly the mentions. */
  lemma DateStep(q: Request)
    requires WellFormed(q)
    ensures var u := UsersText(q.usernames);
      var d := DatePart(SkipSpaces(DateText(q.date) + u));
      && d.part == (if q.date.Some? then Some(DateDigits(q.date.value)) else None)
      && SkipSpaces(d.rest) == GroupsOf(q).tail
  {
    var u := UsersText(q.usernames);
    MentionsStart(q);
    if q.date.Some? {
      DateThenNames(DateDigits(q.date.value), u);
    } else {
      var j := GroupsOf(q).tail;
      assert DateText(q.date) + u == u;
      assert j == [] || !IsDigit(j[0]);
      assert j == [] || Span(j, Space) == 0;
    }
  }

  lemma DateThenNames(dd: string, u: string)
    requires IsDateShape(dd)
    ensures DatePart(SkipSpaces(" " + dd + u)) == Piece(Some(dd), u)
  {
    assert " " + dd + u == " " + (dd + u);
    SpanExact(" ", dd + u, Space);
    assert (dd + u)[..10] == dd && (dd + u)[10..] == u;
  }

  /** The mentions are a space and then text starting with `@`, or nothing. */
  lemma MentionsStart(q: Request)
    requires WellFormed(q)
    ensures var u, j := UsersText(q.usernames), GroupsOf(q).tail;
      && (j == [] || j[0] == '@')
      && SkipSpaces(u) == j
  {
    var u, j := UsersText(q.usernames), GroupsOf(q).tail;
    if q.usernames != [] {
      var ms := Mentions(q.usernames);
      JoinFirst(ms);
      assert ms[0] == "@" + q.usernames[0];
      assert u == " " + j;
      SpanExact(" ", j, Space);
    }
  }

  /** A character no name holds, other than the space and `@`, is not in the mentions. */
  lemma MentionsAvoid(users: seq<string>, c: char)
    requires c != ' ' && c != '@'
    requires forall k :: 0 <= k < |users| ==> c !in users[k]
    ensures c !in Join(Mentions(users))
  {
    var ms := Mentions(users);
    forall k | 0 <= k < |ms|
      ensures c !in ms[k]
    {
      assert ms[k] == "@" + users[k];
    }
    JoinAvoids(ms, c);
  }

  /** Nothing the parser reads after the duration holds a line feed. */
  lemma TailNoNewline(q: Request)
    requires WellFormed(q)
    ensures '\n' !in GroupsOf(q).tail
  {
    forall k | 0 <= k < |q.usernames|
      ensures '\n' !in q.usernames[k]
    {
      assert IsUsername(q.usernames[k]);
    }
    MentionsAvoid(q.usernames, '\n');
  }

  lemma MatchRender(q: Request)
    requires WellFormed(q)
    ensures MatchCommand(Render(q)) == Some(GroupsOf(q))
  {
    var t, b, n := Render(q), Body(q), |q.title|;
    AfterFlagRender(q);
    QuoteStep(q);
    RestStep(q);
    var after := DateText(q.date) + UsersText(q.usernames);
    DurationStep(q, after);
    var h := UnitPart(RestText(q)[1..], 'h');
    var m := UnitPart(h.rest, 'm');
    DateStep(q);
    var d := DatePart(SkipSpaces(m.rest));
    TailNoNewline(q);
    MatchOfParts(t, b, n, h, m, d, SkipSpaces(d.rest));
  }

  /** The match, given each group it reads in turn. */
  lemma MatchOfParts(t: string, b: string, n: nat, h: Piece, m: Piece, d: Piece, tail: string)
    requires AfterFlag(t) == b && b != [] && b[0] == '"'
    requires Span(b[1..], NotQuote) == n && n > 0 && 1 + n < |b|
    requires Span(b[2 + n..], Space) == 1
    requires h == UnitPart(b[2 + n..][1..], 'h') && m == UnitPart(h.rest, 'm')
    requires d == DatePart(SkipSpaces(m.rest)) && tail == SkipSpaces(d.rest) && '\n' !in tail
    ensures MatchCommand(t) == Some(Groups(b[1..1 + n], h.part, m.part, d.part, tail))
  {
  }


  /** Groups that read back as the parts of `q` make the command `q` was written for. */
  lemma GroupsMeaning(q: Request, text: string, g: Groups)
    requires g.hours.Some? ==> AllDigits(g.hours.value)
    requires g.minutes.Some? ==> AllDigits(g.minutes.value)
    requires g.date.Some? ==> IsDateShape(g.date.value)
    requires Strip(g.title) == q.title
    requires 60 * PartValue(g.hours) + PartValue(g.minutes) ==
      60 * (if q.hours.Some? then q.hours.value else 0) + (if q.minutes.Some? then q.minutes.value else 0)
    requires g.date.Some? == q.date.Some?
    requires q.date.Some? ==> DateOf(g.date.value) == if Calendar.IsValidDate(q.date.value) then q.date else None
    requires (if g.tail != [] then AtNames(Split(g.tail)) else []) == q.usernames
    requires ("-r" in Split(text)) == q.isRecurring
    ensures ParseGroups(text, g) == Expected(q)
  {
    if g.date.Some? {
      assert DateOf(g.date.value).None? <==> !Calendar.IsValidDate(q.date.value);
    }
  }

  lemma DurationBack(q: Request, g: Groups)
    requires WellFormed(q) && g == GroupsOf(q)
    ensures 60 * PartValue(g.hours) + PartValue(g.minutes) ==
      60 * (if q.hours.Some? then q.hours.value else 0) + (if q.minutes.Some? then q.minutes.value else 0)
  {
    if q.hours.Some? {
      DecimalValue(q.hours.value);
    }
    if q.minutes.Some? {
      DecimalValue(q.minutes.value);
    }
  }

  lemma DateBack(q: Request, g: Groups)
    requires WellFormed(q) && g == GroupsOf(q)
    ensures g.date.Some? == q.date.Some?
    ensures q.date.Some? ==> DateOf(g.date.value) == if Calendar.IsValidDate(q.date.value) then q.date else None
  {
    if q.date.Some? {
      DateDigitsValue(q.date.value);
    }
  }

  lemma NamesBack(q: Request, g: Groups)
    requires WellFormed(q) && g == GroupsOf(q)
    ensures (if g.tail != [] then AtNames(Split(g.tail)) else []) == q.usernames
  {
    if q.usernames != [] {
      var ms := Mentions(q.usernames);
      MentionsAreWords(q);
      SplitJoin(ms);
      AtNamesMentions(q.usernames);
      JoinFirst(ms);
      assert ms[0] == "@" + q.usernames[0];
    }
  }

  /** `strptime` on a written date reads back its day, month and year. */
  lemma DateDigitsValue(d: Calendar.Date)
    requires 0 <= d.day < 100 && 0 <= d.month < 100 && 0 <= d.year < 10000
    ensures DateOf(DateDigits(d)) == if Calendar.IsValidDate(d) then Some(d) else None
  {
    var ds := DateDigits(d);
    assert ds[0..2] == Padded(d.day, 2);
    assert ds[3..5] == Padded(d.month, 2);
    assert ds[6..10] == Padded(d.year, 4);
    assert Pow10(2) == 100 && Pow10(4) == 10000;
    PaddedValue(d.day, 2);
    PaddedValue(d.month, 2);
    PaddedValue(d.year, 4);
  }

  lemma MentionsAreWords(q: Request)
    requires WellFormed(q)
    ensures forall t :: t in Mentions(q.usernames) ==> t != [] && forall k :: 0 <= k < |t| ==> !IsSpace(t[k])
  {
    var ms := Mentions(q.usernames);
    forall t | t in ms
      ensures t != [] && forall k :: 0 <= k < |t| ==> !IsSpace(t[k])
    {
      var x :| 0 <= x < |ms| && ms[x] == t;
      assert IsUsername(q.usernames[x]);
      assert t == "@" + q.usernames[x];
    }
  }

  /** Keeping the `@` tokens and stripping their `@` gives the names back. */
  lemma {:induction false} AtNamesMentions(users: seq<string>)
    requires forall k :: 0 <= k < |users| ==> users[k] == [] || users[k][0] != '@'
    ensures AtNames(Mentions(users)) == users
  {
    if users != [] {
      var ms := Mentions(users);
      var u := users[0];
      assert ms[1..] == Mentions(users[1..]);
      AtNamesMentions(users[1..]);
      MentionBack(u);
      assert ms[0] == "@" + u;
      assert AtNames(ms) == [u] + AtNames(ms[1..]);
      assert users == [u] + users[1..];
    }
  }

  lemma MentionBack(u: string)
    requires u == [] || u[0] != '@'
    ensures LstripChar("@" + u, '@') == u
  {
    assert ("@" + u)[1..] == u;
  }

  /** The `-r` token is present exactly when the command is written as recurring. */
  lemma RecurringToken(q: Request)
    requires WellFormed(q)
    ensures ("-r" in Split(Render(q))) == q.isRecurring
  {
    var b := Body(q);
    NoDashInBody(q);
    if q.isRecurring {
      assert Render(q) == "-r" + " " + b;
      SplitToken("-r", " ", b);
    } else if "-r" in Split(b) {
      SplitChars(b, "-r", '-');
    }
  }

  lemma NoDashInBody(q: Request)
    requires WellFormed(q)
    ensures '-' !in Body(q)
  {
    var b := Body(q);
    var u := UsersText(q.usernames);
    assert b == "\"" + q.title + "\" " + DurationTextOf(q) + DateText(q.date) + u;
    assert '-' !in DurationTextOf(q);
    assert '-' !in DateText(q.date);
    forall k | 0 <= k < |q.usernames|
      ensures '-' !in q.usernames[k]
    {
      assert IsUsername(q.usernames[k]);
    }
    MentionsAvoid(q.usernames, '-');
  }

  // The two commands the parser's documentation shows, without the `/event ` the
  // handler removes before calling it.

  /** `"Mothership: Session 3" 3h30m 16.02.2026 @blimmsky @kosmovar` is 210 minutes on
      16 February 2026 with two players. */
  lemma MothershipExample()
    ensures ParseCommand("\"Mothership: Session 3\"" + " 3h30m" + " 16.02.2026" + " @blimmsky @kosmovar")
      == Some(Command("Mothership: Session 3", 210, false, Some(Calendar.Date(2026, 2, 16)), ["blimmsky", "kosmovar"]))
  {
    var q := Request(false, "Mothership: Session 3", Some(3), Some(30), Some(Calendar.Date(2026, 2, 16)), ["blimmsky", "kosmovar"]);
    MothershipWellFormed(q);
    MothershipRendered(q);
    assert Calendar.IsValidDate(Calendar.Date(2026, 2, 16));
    ParseRender(q);
  }

  lemma MothershipWellFormed(q: Request)
    requires q == Request(false, "Mothership: Session 3", Some(3), Some(30), Some(Calendar.Date(2026, 2, 16)), ["blimmsky", "kosmovar"])
    ensures WellFormed(q)
  {
    MothershipTitle();
    MothershipUsers();
  }

  lemma MothershipTitle()
    ensures var t := "Mothership: Session 3"; '"' !in t && '-' !in t && !IsSpace(t[0]) && !IsSpace(t[|t| - 1])
  {
  }

  lemma MothershipUsers()
    ensures IsUsername("blimmsky") && IsUsername("kosmovar")
  {
  }

  lemma MothershipRendered(q: Request)
    requires q == Request(false, "Mothership: Session 3", Some(3), Some(30), Some(Calendar.Date(2026, 2, 16)), ["blimmsky", "kosmovar"])
    requires WellFormed(q)
    ensures Render(q) == "\"Mothership: Session 3\"" + " 3h30m" + " 16.02.2026" + " @blimmsky @kosmovar"
  {
    MothershipDuration();
    MothershipDate();
    MothershipNames();
    RenderPieces(q, "3h30m", " 16.02.2026", " @blimmsky @kosmovar");
    MothershipPieces();
  }

  lemma MothershipDuration()
    ensures UnitText(Some(3), 'h') + UnitText(Some(30), 'm') == "3h30m"
  {
    assert Decimal(3) == "3" && Decimal(30) == "30";
  }

  lemma MothershipDate()
    ensures DateText(Some(Calendar.Date(2026, 2, 16))) == " 16.02.2026"
  {
    PaddedDigits();
  }

  lemma MothershipNames()
    ensures UsersText(["blimmsky", "kosmovar"]) == " @blimmsky @kosmovar"
  {
    TwoMentions("blimmsky", "kosmovar");
    MothershipPieces();
  }

  lemma MothershipPieces()
    ensures "\"" + "Mothership: Session 3" + "\"" == "\"Mothership: Session 3\""
    ensures " " + "3h30m" == " 3h30m"
    ensures " " + "16.02.2026" == " 16.02.2026"
    ensures " " + (("@" + "blimmsky") + " " + ("@" + "kosmovar")) == " @blimmsky @kosmovar"
  {
  }

  lemma PaddedDigits()
    ensures Padded(16, 2) == "16"
    ensures Padded(2, 2) == "02"
    ensures Padded(2026, 4) == "2026"
  {
  }

  /** `-r "Monster Hearts" 4h @nickus83 @chilovar` is a recurring 240-minute event with no
      date. */
  lemma MonsterHeartsExample()
    ensures ParseCommand("-r " + "\"Monster Hearts\"" + " 4h" + "" + " @nickus83 @chilovar")
      == Some(Command("Monster Hearts", 240, true, None, ["nickus83", "chilovar"]))
  {
    var q := Request(true, "Monster Hearts", Some(4), None, None, ["nickus83", "chilovar"]);
    MonsterHeartsWellFormed(q);
    MonsterHeartsRendered(q);
    ParseRender(q);
  }

  lemma MonsterHeartsWellFormed(q: Request)
    requires q == Request(true, "Monster Hearts", Some(4), None, None, ["nickus83", "chilovar"])
    ensures WellFormed(q)
  {
    MonsterHeartsTitle();
    MonsterHeartsUsers();
  }

  lemma MonsterHeartsTitle()
    ensures var t := "Monster Hearts"; '"' !in t && '-' !in t && !IsSpace(t[0]) && !IsSpace(t[|t| - 1])
  {
  }

  lemma MonsterHeartsUsers()
    ensures IsUsername("nickus83") && IsUsername("chilovar")
  {
  }

  lemma MonsterHeartsRendered(q: Request)
    requires q == Request(true, "Monster Hearts", Some(4), None, None, ["nickus83", "chilovar"])
    requires WellFormed(q)
    ensures Render(q) == "-r " + "\"Monster Hearts\"" + " 4h" + "" + " @nickus83 @chilovar"
  {
    assert Decimal(4) == "4";
    TwoMentions("nickus83", "chilovar");
    MonsterHeartsPieces();
    RenderPieces(q, "4h", "", " @nickus83 @chilovar");
  }

  lemma MonsterHeartsPieces()
    ensures "\"" + "Monster Hearts" + "\"" == "\"Monster Hearts\""
    ensures " " + "4h" == " 4h"
    ensures " " + (("@" + "nickus83") + " " + ("@" + "chilovar")) == " @nickus83 @chilovar"
  {
  }

  /** A written command is the flag, the quoted title and the three parts after it. */
  lemma RenderPieces(q: Request, d: string, dt: string, ut: string)
    requires WellFormed(q)
    requires DurationTextOf(q) == d && DateText(q.date) == dt && UsersText(q.usernames) == ut
    ensures Render(q) == (if q.isRecurring then "-r " else "") + ("\"" + q.title + "\"") + (" " + d) + dt + ut
  {
  }

  lemma TwoMentions(a: string, b: string)
    ensures UsersText([a, b]) == " " + (("@" + a) + " " + ("@" + b))
  {
    var ms := Mentions([a, b]);
    assert ms[0] == "@" + a && ms[1] == "@" + b;
    assert ms[1..] == ["@" + b];
    assert Join(ms[1..]) == "@" + b;
  }

  /** Text that still starts with the command name, as the documentation writes it, is
      refused: after `strip()` it does not start with `-r` or a quote. */
  lemma CommandNameRefused(rest: string)
    ensures ParseCommand("/event " + rest) == None
  {
    var s := "/event " + rest;
    var r := Strip(s);
    assert Span(s, Space) == 0;
    assert !IsSpace(s[0]) && s[0..] == s;
    assert r != [] && r[0] == '/';
  }
}
