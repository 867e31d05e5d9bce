/** Label templates.  A label may contain placeholders `{key}` whose key is one
    or more ASCII letters or digits (the pattern `\{([a-zA-Z0-9]+)\}`).  Each
    placeholder is replaced by the value of a system parameter looked up without
    regard to letter case, or by the bare key when there is no such parameter;
    all other text, including braces around anything else, is kept. */
module Template {
  import opened Wrappers

  predicate IsAlnum(c: char) {
    'a' <= c <= 'z' || 'A' <= c <= 'Z' || '0' <= c <= '9'
  }

  /** `t` is, as a whole, a placeholder: a brace, a non-empty alphanumeric key, a brace. */
  predicate IsPlaceholder(t: string) {
    |t| >= 3 && t[0] == '{' && t[|t| - 1] == '}' && forall k :: 1 <= k < |t| - 1 ==> IsAlnum(t[k])
  }

  /** Some substring of `s` is a placeholder. */
  predicate ContainsPlaceholder(s: string) {
    exists i, j :: 0 <= i < j <= |s| && IsPlaceholder(s[i..j])
  }

  /** Length of the longest run of alphanumerics starting at `j`. */
  function AlnumRun(s: string, j: nat): (n: nat)
    requires j <= |s|
    ensures j + n <= |s|
    decreases |s| - j
  {
    if j < |s| && IsAlnum(s[j]) then 1 + AlnumRun(s, j + 1) else 0
  }

  /** The run is maximal: all of it is alphanumeric and the character after it is not. */
  lemma {:induction false} AlnumRunMaximal(s: string, j: nat)
    requires j <= |s|
    ensures forall k :: j <= k < j + AlnumRun(s, j) ==> IsAlnum(s[k])
    ensures j + AlnumRun(s, j) < |s| ==> !IsAlnum(s[j + AlnumRun(s, j)])
    decreases |s| - j
  {
    if j < |s| && IsAlnum(s[j]) {
      AlnumRunMaximal(s, j + 1);
    }
  }

  /** The length of the placeholder that starts at `i`, if one does.  A run of
      alphanumerics cannot contain a brace, so the regular expression's greedy
      run either ends at the closing brace or nowhere. */
  function MatchAt(s: string, i: nat): (r: Option<nat>)
    ensures r.Some? ==> i < |s| && 3 <= r.value && i + r.value <= |s|
  {
    if i < |s| && s[i] == '{' then
      var n := AlnumRun(s, i + 1);
      if n > 0 && i + 1 + n < |s| && s[i + 1 + n] == '}' then Some(n + 2) else None
    else
      None
  }

  /** `MatchAt` finds a placeholder at `i` exactly when one starts there, and
      measures it. */
  lemma MatchAtIsPlaceholder(s: string, i: nat)
    ensures MatchAt(s, i).Some? <==> i < |s| && exists j :: i < j <= |s| && IsPlaceholder(s[i..j])
    ensures MatchAt(s, i).Some? ==> IsPlaceholder(s[i..i + MatchAt(s, i).value])
  {
    if MatchAt(s, i).Some? {
      MatchIsPlaceholder(s, i);
    } else {
      forall j | i < j <= |s|
        ensures !IsPlaceholder(s[i..j])
      {
        NoMatchNoPlaceholder(s, i, j);
      }
    }
  }

  /** What `MatchAt` measures is a placeholder. */
  lemma MatchIsPlaceholder(s: string, i: nat)
    requires MatchAt(s, i).Some?
    ensures IsPlaceholder(s[i..i + MatchAt(s, i).value])
  {
    var n := AlnumRun(s, i + 1);
    AlnumRunMaximal(s, i + 1);
    var t := s[i..i + n + 2];
    assert t[0] == s[i] && t[|t| - 1] == s[i + n + 1];
    assert forall k :: 1 <= k < |t| - 1 ==> t[k] == s[i + k];
  }

  /** Where `MatchAt` finds nothing, no placeholder starts. */
  lemma NoMatchNoPlaceholder(s: string, i: nat, j: nat)
    requires i < j <= |s| && MatchAt(s, i).None?
    ensures !IsPlaceholder(s[i..j])
  {
    assert s[i..j][0] == s[i];
    if s[i] == '{' && IsPlaceholder(s[i..j]) {
      PlaceholderRun(s, i, j);
    }
  }

  /** The run of alphanumerics from `a` ends exactly at the first
      non-alphanumeric `b`. */
  lemma {:induction false} AlnumRunExact(s: string, a: nat, b: nat)
    requires a <= b < |s|
    requires forall k :: a <= k < b ==> IsAlnum(s[k])
    requires !IsAlnum(s[b])
    ensures AlnumRun(s, a) == b - a
    decreases b - a
  {
    if a < b {
      AlnumRunExact(s, a + 1, b);
    }
  }

  /** A placeholder spanning `s[i..j]` is what `MatchAt` measures from `i`. */
  lemma PlaceholderRun(s: string, i: nat, j: nat)
    requires i < j <= |s| && IsPlaceholder(s[i..j])
    ensures AlnumRun(s, i + 1) == j - i - 2 && s[j - 1] == '}'
  {
    var t := s[i..j];
    assert forall k :: i + 1 <= k < j - 1 ==> s[k] == t[k - i];
    assert s[j - 1] == t[j - i - 1];
    AlnumRunExact(s, i + 1, j - 1);
  }

  /** One regular-expression match: where it starts, how long it is, and the key
      captured between the braces. */
  datatype Match = Match(index: nat, length: nat, key: string)

  /** `m` is a genuine match in `s`: a placeholder at `m.index` with key `m.key`. */
  predicate IsMatchIn(s: string, m: Match) {
    && MatchAt(s, m.index) == Some(m.length)
    && m.index + m.length <= |s|
    && m.key == s[m.index + 1 .. m.index + m.length - 1]
  }

  /** The matches lie in order, without overlap, at or after `from` and inside `s`. */
  predicate WellPlaced(s: string, ms: seq<Match>, from: nat)
    decreases |ms|
  {
    if |ms| == 0 then from <= |s|
    else (from <= ms[0].index && ms[0].index + ms[0].length <= |s| && ms[0].length > 0
          && WellPlaced(s, ms[1..], ms[0].index + ms[0].length))
  }

  /** `Regex.Matches` from position `i`: try each start position from left to
      right; after a match, continue at its end. */
  function MatchesFrom(s: string, i: nat): (ms: seq<Match>)
    requires i <= |s|
    ensures WellPlaced(s, ms, i)
    decreases |s| - i
  {
    if i == |s| then []
    else match MatchAt(s, i)
      case Some(n) => [Match(i, n, s[i + 1 .. i + n - 1])] + MatchesFrom(s, i + n)
      case None => MatchesFrom(s, i + 1)
  }

  /** Every match listed is a genuine placeholder of `s`, with its key. */
  lemma {:induction false} MatchesAreGenuine(s: string, i: nat)
    requires i <= |s|
    ensures forall k :: 0 <= k < |MatchesFrom(s, i)| ==> IsMatchIn(s, MatchesFrom(s, i)[k])
    decreases |s| - i
  {
    if i < |s| {
      match MatchAt(s, i)
      case Some(n) =>
        MatchesAreGenuine(s, i + n);
        var ms, rest := MatchesFrom(s, i), MatchesFrom(s, i + n);
        var head := Match(i, n, s[i + 1 .. i + n - 1]);
        assert ms == [head] + rest;
        assert IsMatchIn(s, head);
        forall k | 0 < k < |ms|
          ensures IsMatchIn(s, ms[k])
        {
          assert ms[k] == rest[k - 1];
        }
      case None =>
        MatchesAreGenuine(s, i + 1);
    }
  }

  /** There are no matches from `i` on exactly when no placeholder starts there. */
  lemma {:induction false} NoMatchesFrom(s: string, i: nat)
    requires i <= |s|
    ensures MatchesFrom(s, i) == [] <==> forall k :: i <= k < |s| ==> MatchAt(s, k).None?
    decreases |s| - i
  {
    if i < |s| {
      NoMatchesFrom(s, i + 1);
    }
  }

  /** Matching is leftmost: no placeholder starts between `i` and the first
      match found from `i` (or the end of the text when there is none). */
  lemma {:induction false} FirstMatchIsLeftmost(s: string, i: nat)
    requires i <= |s|
    ensures var ms := MatchesFrom(s, i);
      forall k :: i <= k < (if |ms| > 0 then ms[0].index else |s|) ==> MatchAt(s, k).None?
    decreases |s| - i
  {
    if i < |s| && MatchAt(s, i).None? {
      FirstMatchIsLeftmost(s, i + 1);
    }
  }

  /** The regular expression finds nothing exactly when the text contains no placeholder. */
  lemma NoMatchesIffNoPlaceholder(s: string)
    ensures MatchesFrom(s, 0) == [] <==> !ContainsPlaceholder(s)
  {
    NoMatchesFrom(s, 0);
    if ContainsPlaceholder(s) {
      var i, j :| 0 <= i < j <= |s| && IsPlaceholder(s[i..j]);
      MatchAtIsPlaceholder(s, i);
    } else if MatchesFrom(s, 0) != [] {
      var i :| 0 <= i < |s| && MatchAt(s, i).Some?;
      MatchAtIsPlaceholder(s, i);
    }
  }

  /** A system parameter: name and the text of its value. */
  datatype Param = Param(name: string, value: string)

  /** ASCII upper-casing; the only letters a key can hold. */
  function UpperAscii(c: char): char {
    if 'a' <= c <= 'z' then (c as int - 32) as char else c
  }

  /** Key comparison of the parameter dictionary: equal up to letter case. */
  predicate SameKey(a: string, b: string) {
    |a| == |b| && forall i :: 0 <= i < |a| ==> UpperAscii(a[i]) == UpperAscii(b[i])
  }

  /** The parameter whose name matches `key` up to letter case, if any. */
  function Lookup(params: seq<Param>, key: string): Option<string>
  {
    if |params| == 0 then None
    else if SameKey(params[0].name, key) then Some(params[0].value)
    else Lookup(params[1..], key)
  }

  /** Lookup finds nothing exactly when no parameter is named like the key,
      and otherwise the value of a parameter that is. */
  lemma {:induction false} LookupMeaning(params: seq<Param>, key: string)
    ensures Lookup(params, key).None? <==> forall i :: 0 <= i < |params| ==> !SameKey(params[i].name, key)
    ensures Lookup(params, key).Some? ==>
      exists i :: 0 <= i < |params| && SameKey(params[i].name, key) && Lookup(params, key).value == params[i].value
  {
    if |params| > 0 && !SameKey(params[0].name, key) {
      LookupMeaning(params[1..], key);
      assert forall i :: 1 <= i < |params| ==> params[i] == params[1..][i - 1];
    }
  }

  /** Keys that differ only in letter case find the same parameter. */
  lemma {:induction false} LookupIgnoresCase(params: seq<Param>, a: string, b: string)
    requires SameKey(a, b)
    ensures Lookup(params, a) == Lookup(params, b)
  {
    if |params| > 0 {
      assert SameKey(params[0].name, a) <==> SameKey(params[0].name, b);
      LookupIgnoresCase(params[1..], a, b);
    }
  }

  /** What a placeholder becomes: its parameter's value, or else its bare key. */
  function Resolve(key: string, params: seq<Param>): string {
    match Lookup(params, key)
    case Some(v) => v
    case None => key
  }

  /** A placeholder becomes the value of a parameter named like its key, and
      its bare key when no parameter is. */
  lemma ResolveMeaning(key: string, params: seq<Param>)
    ensures (exists i :: 0 <= i < |params| && SameKey(params[i].name, key)) ==>
      exists i :: 0 <= i < |params| && SameKey(params[i].name, key) && Resolve(key, params) == params[i].value
    ensures (forall i :: 0 <= i < |params| ==> !SameKey(params[i].name, key)) ==> Resolve(key, params) == key
  {
    LookupMeaning(params, key);
  }

  /** The text with each listed match replaced by its resolution and the text
      around the matches copied in order. */
  function Splice(s: string, ms: seq<Match>, from: nat, params: seq<Param>): string
    requires WellPlaced(s, ms, from)
    decreases |ms|
  {
    if |ms| == 0 then s[from..]
    else s[from..ms[0].index] + Resolve(ms[0].key, params) + Splice(s, ms[1..], ms[0].index + ms[0].length, params)
  }

  /** The expanded label. */
  function Expanded(s: string, params: seq<Param>): string {
    Splice(s, MatchesFrom(s, 0), 0, params)
  }

  /** What is left to expand once the cursor is at `cursor`. */
  function Remaining(s: string, cursor: nat, params: seq<Param>): string
    requires cursor <= |s|
  {
    Splice(s, MatchesFrom(s, cursor), cursor, params)
  }

  /** At a match, the expansion is the match's resolution followed by the
      expansion after it. */
  lemma MatchStep(s: string, cursor: nat, params: seq<Param>, m: Match)
    requires m.index == cursor && cursor + m.length <= |s|
    requires MatchesFrom(s, cursor) == [m] + MatchesFrom(s, cursor + m.length)
    ensures Remaining(s, cursor, params) == Resolve(m.key, params) + Remaining(s, cursor + m.length, params)
  {
    var rest := MatchesFrom(s, cursor + m.length);
    assert ([m] + rest)[1..] == rest;
    assert s[cursor..cursor] == "";
  }

  /** Where no match starts, the expansion copies one character and moves on. */
  lemma CopyStep(s: string, cursor: nat, params: seq<Param>)
    requires cursor < |s|
    requires var ms := MatchesFrom(s, cursor); |ms| == 0 || ms[0].index != cursor
    ensures MatchesFrom(s, cursor + 1) == MatchesFrom(s, cursor)
    ensures Remaining(s, cursor, params) == [s[cursor]] + Remaining(s, cursor + 1, params)
  {
    var ms := MatchesFrom(s, cursor);
    assert MatchAt(s, cursor).None?;
    assert WellPlaced(s, ms, cursor + 1);
    if |ms| > 0 {
      var gap := s[cursor + 1..ms[0].index];
      var r := Resolve(ms[0].key, params);
      var t := Splice(s, ms[1..], ms[0].index + ms[0].length, params);
      assert s[cursor..ms[0].index] == [s[cursor]] + gap;
      assert Remaining(s, cursor, params) == (([s[cursor]] + gap) + r) + t;
      assert Remaining(s, cursor + 1, params) == (gap + r) + t;
      assert ([s[cursor]] + gap) + r == [s[cursor]] + (gap + r);
      assert ([s[cursor]] + (gap + r)) + t == [s[cursor]] + ((gap + r) + t);
    } else {
      assert s[cursor..] == [s[cursor]] + s[cursor + 1..];
    }
  }

  /** Moving a piece from the front of the remainder to the end of the output.
      This is only associativity, which Dafny knows; naming the step keeps the
      loop body of `SpliceMatches` cheap for the solver, which otherwise
      searches the regroupings of three concatenations itself. */
  lemma Shift(done: string, piece: string, next: string, target: string)
    requires done + (piece + next) == target
    ensures (done + piece) + next == target
  {
  }

  /** What the cursor loop appends from a given state to the end: at the
      start of the current match its resolution, then a jump past it;
      elsewhere one character. */
  function CursorLoop(s: string, matches: seq<Match>, matchIndex: nat, cursor: nat, params: seq<Param>): string
    requires matchIndex <= |matches|
    decreases |s| - cursor, |matches| - matchIndex
  {
    if cursor >= |s| then ""
    else if matchIndex < |matches| && cursor == matches[matchIndex].index then
      var m := matches[matchIndex];
      Resolve(m.key, params) + CursorLoop(s, matches, matchIndex + 1, cursor + m.length, params)
    else
      [s[cursor]] + CursorLoop(s, matches, matchIndex, cursor + 1, params)
  }

  /** Run on the matches the regular expression finds from the cursor on, the
      loop produces the expansion of the rest of the text. */
  lemma {:induction false} CursorLoopExpands(s: string, matches: seq<Match>, matchIndex: nat, cursor: nat,
                                             params: seq<Param>)
    requires cursor <= |s| && matchIndex <= |matches|
    requires matches[matchIndex..] == MatchesFrom(s, cursor)
    ensures CursorLoop(s, matches, matchIndex, cursor, params) == Remaining(s, cursor, params)
    decreases |s| - cursor
  {
    if cursor == |s| {
      assert MatchesFrom(s, cursor) == [];
    } else if matchIndex < |matches| && cursor == matches[matchIndex].index {
      var next := LoopAtMatch(s, matches, matchIndex, cursor);
      CursorLoopExpands(s, matches, matchIndex + 1, next, params);
      ExpandsAtMatch(s, matches, matchIndex, cursor, next, params);
    } else {
      CursorLoopExpands(s, matches, matchIndex, cursor + 1, params);
      ExpandsElsewhere(s, matches, matchIndex, cursor, params);
    }
  }

  /** The match case of `CursorLoopExpands`, given the expansion after the match. */
  lemma ExpandsAtMatch(s: string, matches: seq<Match>, matchIndex: nat, cursor: nat, next: nat, params: seq<Param>)
    requires cursor < |s| && matchIndex < |matches| && cursor == matches[matchIndex].index
    requires next == cursor + matches[matchIndex].length <= |s|
    requires MatchesFrom(s, cursor) == [matches[matchIndex]] + MatchesFrom(s, next)
    requires CursorLoop(s, matches, matchIndex + 1, next, params) == Remaining(s, next, params)
    ensures CursorLoop(s, matches, matchIndex, cursor, params) == Remaining(s, cursor, params)
  {
    MatchStep(s, cursor, params, matches[matchIndex]);
  }

  /** The copy case of `CursorLoopExpands`, given the expansion from the next character. */
  lemma ExpandsElsewhere(s: string, matches: seq<Match>, matchIndex: nat, cursor: nat, params: seq<Param>)
    requires cursor < |s| && matchIndex <= |matches|
    requires matchIndex < |matches| ==> cursor != matches[matchIndex].index
    requires matches[matchIndex..] == MatchesFrom(s, cursor)
    requires CursorLoop(s, matches, matchIndex, cursor + 1, params) == Remaining(s, cursor + 1, params)
    ensures CursorLoop(s, matches, matchIndex, cursor, params) == Remaining(s, cursor, params)
  {
    CopyStep(s, cursor, params);
  }

  /** At the current match, the loop jumps to where the regular expression
      resumes its search. */
  lemma LoopAtMatch(s: string, matches: seq<Match>, matchIndex: nat, cursor: nat) returns (next: nat)
    requires cursor < |s| && matchIndex < |matches| && cursor == matches[matchIndex].index
    requires matches[matchIndex..] == MatchesFrom(s, cursor)
    ensures next == cursor + matches[matchIndex].length <= |s|
    ensures matches[matchIndex + 1..] == MatchesFrom(s, next)
    ensures MatchesFrom(s, cursor) == [matches[matchIndex]] + MatchesFrom(s, next)
  {
    var m := matches[matchIndex];
    var ms := MatchesFrom(s, cursor);
    assert ms[0] == m;
    match MatchAt(s, cursor)
    case None =>
      assert false;
    case Some(n) =>
      assert ms == [Match(cursor, n, s[cursor + 1 .. cursor + n - 1])] + MatchesFrom(s, cursor + n);
      assert matches[matchIndex + 1..] == ms[1..];
      next := cursor + n;
  }

  /** The cursor loop of `CreateMarker`, run while the cursor is inside the
      label: at the start of the next match, append its resolution and
      jump past it; elsewhere copy one character. The loop's current match is
      `matches[matchIndex]` while `matchIndex < |matches|`, and none after. */
  method SpliceMatches(information: string, matches: seq<Match>, params: seq<Param>) returns (result: string)
    requires matches == MatchesFrom(information, 0) && |matches| > 0
    ensures result == Expanded(information, params)
  {
    ghost var target := CursorLoop(information, matches, 0, 0, params);
    var builder := "";
    var cursor: nat := 0;
    var matchIndex: nat := 0;
    assert builder + target == target;
    while cursor < |information|
      invariant matchIndex <= |matches|
      invariant builder + CursorLoop(information, matches, matchIndex, cursor, params) == target
      decreases |information| - cursor, |matches| - matchIndex
    {
      if matchIndex < |matches| && cursor == matches[matchIndex].index {
        var m := matches[matchIndex];
        var value := Resolve(m.key, params);
        Shift(builder, value, CursorLoop(information, matches, matchIndex + 1, cursor + m.length, params), target);
        cursor := cursor + m.length;
        builder := builder + value;
        matchIndex := matchIndex + 1;
        assert builder + CursorLoop(information, matches, matchIndex, cursor, params) == target;
      } else {
        Shift(builder, [information[cursor]], CursorLoop(information, matches, matchIndex, cursor + 1, params), target);
        builder := builder + [information[cursor]];
        cursor := cursor + 1;
        assert builder + CursorLoop(information, matches, matchIndex, cursor, params) == target;
      }
    }
    CursorLoopExpands(information, matches, 0, 0, params);
    assert builder + "" == builder;
    result := builder;
  }

  /** Template expansion in `CreateMarker`: find the matches, and when there
      are any run the cursor loop; a label with no match is kept as it is. */
  method ExpandTemplate(information: string, params: seq<Param>) returns (result: string)
    ensures result == Expanded(information, params)
    ensures !ContainsPlaceholder(information) ==> result == information
  {
    var matches := MatchesFrom(information, 0);
    NoMatchesIffNoPlaceholder(information);
    if |matches| > 0 {
      result := SpliceMatches(information, matches, params);
    } else {
      result := information;
    }
  }

  /** `Char.IsWhiteSpace`: the Unicode space, line and paragraph separators,
      the control characters U+0009 to U+000D, and U+0085. */
  predicate IsWhiteSpace(c: char) {
    var u := c as int;
    || 0x09 <= u <= 0x0D || u == 0x20 || u == 0x85 || u == 0xA0 || u == 0x1680
    || 0x2000 <= u <= 0x200A || u == 0x2028 || u == 0x2029 || u == 0x202F || u == 0x205F || u == 0x3000
  }

  /** `string.IsNullOrWhiteSpace`. */
  predicate IsNullOrWhiteSpace(s: Option<string>) {
    s.None? || forall i :: 0 <= i < |s.value| ==> IsWhiteSpace(s.value[i])
  }

  /** `string.TrimStart()`: the text after its leading white space. */
  function TrimStart(s: string): (t: string)
    ensures |t| <= |s|
    ensures |t| > 0 ==> t == s[|s| - |t|..] && !IsWhiteSpace(t[0])
  {
    if |s| > 0 && IsWhiteSpace(s[0]) then TrimStart(s[1..]) else s
  }

  /** Text is blank exactly when trimming its leading white space leaves nothing. */
  lemma {:induction false} BlankIffTrimsToEmpty(s: string)
    ensures IsNullOrWhiteSpace(Some(s)) <==> TrimStart(s) == ""
  {
    if |s| > 0 && IsWhiteSpace(s[0]) {
      var rest := s[1..];
      BlankIffTrimsToEmpty(rest);
      if IsNullOrWhiteSpace(Some(rest)) {
        forall i | 0 < i < |s|
          ensures IsWhiteSpace(s[i])
        {
          assert s[i] == rest[i - 1];
        }
      } else {
        var i :| 0 <= i < |rest| && !IsWhiteSpace(rest[i]);
        assert s[i + 1] == rest[i];
      }
    } else if |s| > 0 {
      assert !IsWhiteSpace(s[0]);
    }
  }

  /** A missing label and the empty label are blank; a label is not blank
      exactly when some character of it is not white space. */
  lemma BlankMeaning(s: Option<string>)
    ensures IsNullOrWhiteSpace(None) && IsNullOrWhiteSpace(Some(""))
    ensures s.Some? ==> (!IsNullOrWhiteSpace(s) <==> exists i :: 0 <= i < |s.value| && !IsWhiteSpace(s.value[i]))
    ensures IsNullOrWhiteSpace(Some(" \t\r\n")) && !IsNullOrWhiteSpace(Some(" x "))
  {
    assert !IsWhiteSpace(" x "[1]);
  }
}
