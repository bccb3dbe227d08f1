/**
 * `parseVaultPasswordFilePath`: the first match of the multiline pattern
 * `^\s*vault_password_file\s*=\s*(.*?)\s*$` in a configuration file, and the
 * captured value joined onto the configuration file's directory.
 *
 * The pattern is evaluated as ECMAScript does: `\s` is any white space or
 * line terminator, `.` is any character but a line terminator, and with the
 * `m` flag `^` and `$` match at line boundaries. The key and `=` are not white
 * space, so the greedy `\s*` runs before them never backtrack; the lazy
 * capture then stops at the last non-white-space character before the end of
 * the line it starts on.
 */
module PasswordFile {
  import opened Wrappers
  import opened Paths

  const Key: string := "vault_password_file"

  /** ECMAScript LineTerminator: LF, CR, LINE SEPARATOR, PARAGRAPH SEPARATOR. */
  predicate IsLineTerminator(c: char) {
    c == '\n' || c == '\r' || c == '\U{2028}' || c == '\U{2029}'
  }

  /** ECMAScript `\s`: WhiteSpace or LineTerminator. */
  predicate IsWhitespace(c: char) {
    || IsLineTerminator(c)
    || c == '\t' || c == '\U{000B}' || c == '\U{000C}' || c == ' ' || c == '\U{00A0}'
    || c == '\U{1680}' || ('\U{2000}' <= c <= '\U{200A}') || c == '\U{202F}'
    || c == '\U{205F}' || c == '\U{3000}' || c == '\U{FEFF}'
  }

  /** Where a greedy `\s*` that starts at `i` stops. */
  function SkipWhitespace(s: string, i: nat): (j: nat)
    requires i <= |s|
    ensures i <= j <= |s|
    ensures forall k :: i <= k < j ==> IsWhitespace(s[k])
    ensures j == |s| || !IsWhitespace(s[j])
    decreases |s| - i
  {
    if i < |s| && IsWhitespace(s[i]) then SkipWhitespace(s, i + 1) else i
  }

  /** The first line terminator at or after `i`, or the end of `s`: where `$` holds. */
  function LineEnd(s: string, i: nat): (j: nat)
    requires i <= |s|
    ensures i <= j <= |s|
    ensures forall k :: i <= k < j ==> !IsLineTerminator(s[k])
    ensures j == |s| || IsLineTerminator(s[j])
    decreases |s| - i
  {
    if i < |s| && !IsLineTerminator(s[i]) then LineEnd(s, i + 1) else i
  }

  /** `t` without its trailing white space. */
  function TrimEnd(t: string): (r: string)
    ensures r <= t
    ensures forall k :: |r| <= k < |t| ==> IsWhitespace(t[k])
    ensures r == [] || !IsWhitespace(r[|r| - 1])
  {
    if t == [] || !IsWhitespace(t[|t| - 1]) then t else TrimEnd(t[..|t| - 1])
  }

  /** With the `m` flag, `^` holds at the start and after every line terminator. */
  predicate AtLineStart(s: string, i: nat) {
    i == 0 || (0 < i <= |s| && IsLineTerminator(s[i - 1]))
  }

  /** Every character of `s[a..b]` is white space. */
  predicate AllWhitespace(s: string, a: nat, b: nat)
    requires a <= b <= |s|
  {
    forall k :: a <= k < b ==> IsWhitespace(s[k])
  }

  /**
   * `s[i..e]` is one reading of `\s*vault_password_file\s*=`: white space,
   * the key at some `j`, white space again, and the `=` as its last character.
   */
  ghost predicate HeadSpans(s: string, i: nat, e: nat) {
    && i < e <= |s|
    && s[e - 1] == '='
    && exists j :: i <= j && j + |Key| < e && AllWhitespace(s, i, j)
         && s[j..j + |Key|] == Key && AllWhitespace(s, j + |Key|, e - 1)
  }

  /** A white-space run followed by a character that is not white space is where `\s*` stops. */
  lemma SkipWhitespaceStopsAt(s: string, i: nat, j: nat)
    requires i <= j < |s| && AllWhitespace(s, i, j) && !IsWhitespace(s[j])
    ensures SkipWhitespace(s, i) == j
  {
  }

  /**
   * Neither the key's first letter nor `=` is white space, so a head can only
   * be read one way: the one the greedy runs of `\s*` find.
   */
  lemma HeadIsGreedy(s: string, i: nat)
    requires i <= |s|
    ensures forall e: nat :: HeadSpans(s, i, e) ==>
      var j := SkipWhitespace(s, i);
      Key <= s[j..] && j + |Key| <= |s| && SkipWhitespace(s, j + |Key|) == e - 1
  {
    forall e: nat | HeadSpans(s, i, e)
      ensures var j := SkipWhitespace(s, i);
        Key <= s[j..] && j + |Key| <= |s| && SkipWhitespace(s, j + |Key|) == e - 1
    {
      var j :| i <= j && j + |Key| < e && AllWhitespace(s, i, j)
        && s[j..j + |Key|] == Key && AllWhitespace(s, j + |Key|, e - 1);
      ReadingIsGreedy(s, i, j, e);
    }
  }

  /** One reading of a head, with the key at `j`, is the one the greedy `\s*` finds. */
  lemma ReadingIsGreedy(s: string, i: nat, j: nat, e: nat)
    requires i <= j && j + |Key| < e <= |s| && s[e - 1] == '='
    requires AllWhitespace(s, i, j) && s[j..j + |Key|] == Key && AllWhitespace(s, j + |Key|, e - 1)
    ensures SkipWhitespace(s, i) == j && Key <= s[j..] && SkipWhitespace(s, j + |Key|) == e - 1
  {
    assert s[j] == Key[0] == 'v';
    SkipWhitespaceStopsAt(s, i, j);
    SkipWhitespaceStopsAt(s, j + |Key|, e - 1);
    assert s[j..][..|Key|] == s[j..j + |Key|];
  }

  /**
   * `\s*vault_password_file\s*=` matched from `i`: the position just after
   * the `=`, or `None` when that part of the pattern fails there.
   */
  function KeyAssignmentAt(s: string, i: nat): (r: Option<nat>)
    requires i <= |s|
    ensures r.Some? ==> i < r.value <= |s| && s[r.value - 1] == '='
  {
    var j := SkipWhitespace(s, i);
    if Key <= s[j..] then
      var k := SkipWhitespace(s, j + |Key|);
      if k < |s| && s[k] == '=' then Some(k + 1) else None
    else None
  }

  /**
   * `KeyAssignmentAt` finds exactly the heads: what it returns is a head, and
   * any head from `i` is what it returns, so a head is found whenever one
   * exists and has only one reading.
   */
  lemma KeyAssignmentIsHead(s: string, i: nat)
    requires i <= |s|
    ensures KeyAssignmentAt(s, i).Some? ==> HeadSpans(s, i, KeyAssignmentAt(s, i).value)
    ensures forall e: nat :: HeadSpans(s, i, e) ==> KeyAssignmentAt(s, i) == Some(e)
  {
    HeadIsGreedy(s, i);
    var j := SkipWhitespace(s, i);
    if Key <= s[j..] {
      var k := SkipWhitespace(s, j + |Key|);
      assert AllWhitespace(s, i, j) && AllWhitespace(s, j + |Key|, k);
    }
  }

  /** `\s*(.*?)\s*$` from `m`: the text captured by the group. */
  function CapturedValue(s: string, m: nat): (v: string)
    requires m <= |s|
  {
    var e := SkipWhitespace(s, m);
    TrimEnd(s[e..LineEnd(s, e)])
  }

  /** The match attempted at `i`, if `^` holds there and a key assignment follows. */
  function MatchAt(s: string, i: nat): (r: Option<string>)
    requires i <= |s|
    ensures r.Some? <==> AtLineStart(s, i) && KeyAssignmentAt(s, i).Some?
  {
    if AtLineStart(s, i) && KeyAssignmentAt(s, i).Some? then
      Some(CapturedValue(s, KeyAssignmentAt(s, i).value))
    else None
  }

  /**
   * A match at `i` exists exactly when `^` holds there and a head
   * `\s*vault_password_file\s*=` starts there, and its value is what the
   * group captures after that head.
   */
  lemma MatchAtHead(s: string, i: nat)
    requires i <= |s|
    ensures MatchAt(s, i).Some? <==> AtLineStart(s, i) && exists e: nat :: HeadSpans(s, i, e)
    ensures forall e: nat :: AtLineStart(s, i) && HeadSpans(s, i, e) ==> MatchAt(s, i) == Some(CapturedValue(s, e))
  {
    KeyAssignmentIsHead(s, i);
  }

  /**
   * The scan of a regex search over positions `i..n`: the first position at
   * which `attempt` succeeds supplies the result.
   */
  function FirstFrom(attempt: nat -> Option<string>, i: nat, n: nat): Option<string>
    decreases n - i
  {
    if i > n then None
    else if attempt(i).Some? then attempt(i)
    else FirstFrom(attempt, i + 1, n)
  }

  /** The match attempted at each position of `s`; there is none past its end. */
  function Attempts(s: string): nat -> Option<string> {
    (k: nat) => if k <= |s| then MatchAt(s, k) else None
  }

  /** `content.match(...)`, reduced to the captured group `passwordFileMatch[1]`. */
  function MatchVaultPasswordFile(content: string): Option<string> {
    FirstFrom(Attempts(content), 0, |content|)
  }

  /**
   * `parseVaultPasswordFilePath` once the file is read: the captured value
   * joined onto the configuration file's directory, or `None` without a match.
   */
  function ParseVaultPasswordFilePath(configFile: string, content: string): (r: Option<string>)
    ensures r.None? <==> MatchVaultPasswordFile(content).None?
    ensures r.Some? ==> ParentDir(configFile) <= r.value
    ensures r.Some? ==> var v := MatchVaultPasswordFile(content).value;
      && |v| <= |r.value| && r.value[|r.value| - |v|..] == v
      && |r.value| <= |ParentDir(configFile)| + 1 + |v|
      && (v != [] ==> |r.value| > |v| && r.value[|r.value| - |v| - 1] == '/')
  {
    match MatchVaultPasswordFile(content)
    case None => None
    case Some(v) => Some(JoinPath(ParentDir(configFile), v))
  }

  // ---------------------------------------------------------------------------
  // What the search returns

  lemma {:induction false} NoneFrom(attempt: nat -> Option<string>, i: nat, n: nat)
    ensures FirstFrom(attempt, i, n).None? <==> forall k :: i <= k <= n ==> attempt(k).None?
    decreases n - i
  {
    if i <= n && attempt(i).None? {
      NoneFrom(attempt, i + 1, n);
    }
  }

  lemma {:induction false} EarliestFrom(attempt: nat -> Option<string>, from: nat, i: nat, n: nat)
    requires from <= i <= n && attempt(i).Some?
    requires forall k :: from <= k < i ==> attempt(k).None?
    ensures FirstFrom(attempt, from, n) == attempt(i)
    decreases i - from
  {
    if from < i {
      EarliestFrom(attempt, from + 1, i, n);
    }
  }

  lemma {:induction false} FirstFromIsEarliest(attempt: nat -> Option<string>, from: nat, n: nat) returns (k: nat)
    requires FirstFrom(attempt, from, n).Some?
    ensures from <= k <= n && attempt(k) == FirstFrom(attempt, from, n)
    ensures forall k' :: from <= k' < k ==> attempt(k').None?
    decreases n - from
  {
    if attempt(from).Some? {
      k := from;
    } else {
      k := FirstFromIsEarliest(attempt, from + 1, n);
    }
  }

  /** A value found is the one matched at the earliest position that matches at all. */
  lemma MatchIsEarliest(content: string) returns (i: nat)
    requires MatchVaultPasswordFile(content).Some?
    ensures i <= |content| && MatchAt(content, i) == MatchVaultPasswordFile(content)
    ensures forall k :: 0 <= k < i ==> MatchAt(content, k).None?
  {
    var attempt := Attempts(content);
    i := FirstFromIsEarliest(attempt, 0, |content|);
    forall k | 0 <= k < i ensures MatchAt(content, k).None? {
      assert attempt(k).None?;
    }
  }

  /** No match exactly when no line start is followed by `\s*vault_password_file\s*=`. */
  lemma NoMatchIffNoKeyAssignment(content: string)
    ensures MatchVaultPasswordFile(content).None? <==>
      forall i :: 0 <= i <= |content| && AtLineStart(content, i) ==> KeyAssignmentAt(content, i).None?
  {
    var attempt := Attempts(content);
    NoneFrom(attempt, 0, |content|);
    forall k | 0 <= k <= |content|
      ensures attempt(k).None? <==> !(AtLineStart(content, k) && KeyAssignmentAt(content, k).Some?)
    {
    }
  }

  /** The first line start that is followed by a key assignment supplies the value. */
  lemma FirstMatchWins(content: string, i: nat)
    requires i <= |content| && AtLineStart(content, i) && KeyAssignmentAt(content, i).Some?
    requires forall k :: 0 <= k < i && AtLineStart(content, k) ==> KeyAssignmentAt(content, k).None?
    ensures MatchVaultPasswordFile(content) == Some(CapturedValue(content, KeyAssignmentAt(content, i).value))
  {
    var attempt := Attempts(content);
    forall k | 0 <= k < i ensures attempt(k).None? {
      assert attempt(k) == MatchAt(content, k);
    }
    EarliestFrom(attempt, 0, i, |content|);
  }

  /** A file that never mentions the key has no password file. */
  lemma NoKeyNoMatch(content: string)
    requires forall j :: 0 <= j <= |content| ==> !(Key <= content[j..])
    ensures MatchVaultPasswordFile(content).None?
  {
    NoMatchIffNoKeyAssignment(content);
    forall i | 0 <= i <= |content| && AtLineStart(content, i)
      ensures KeyAssignmentAt(content, i).None?
    {
      var j := SkipWhitespace(content, i);
      assert !(Key <= content[j..]);
    }
  }

  // ---------------------------------------------------------------------------
  // What the captured value looks like

  /**
   * The value is the rest of the line after the white space that follows the
   * `=`, less its trailing white space: it lies on one line, has no white space
   * at either end, and only white space stands between it and the line's end.
   */
  lemma CapturedValueIsTrimmed(s: string, m: nat)
    requires m <= |s|
    ensures var v := CapturedValue(s, m);
      && (forall k :: 0 <= k < |v| ==> !IsLineTerminator(v[k]))
      && (v == [] || (!IsWhitespace(v[0]) && !IsWhitespace(v[|v| - 1])))
    ensures var v := CapturedValue(s, m); var e := SkipWhitespace(s, m);
      && AllWhitespace(s, m, e)
      && e + |v| <= LineEnd(s, e) && s[e..e + |v|] == v
      && forall k :: e + |v| <= k < LineEnd(s, e) ==> IsWhitespace(s[k])
  {
  }

  lemma LineEndAt(s: string, i: nat, j: nat)
    requires i <= j <= |s|
    requires forall k :: i <= k < j ==> !IsLineTerminator(s[k])
    requires j == |s| || IsLineTerminator(s[j])
    ensures LineEnd(s, i) == j
  {
  }

  lemma TrimEndOfTrimmed(t: string)
    requires t == [] || !IsWhitespace(t[|t| - 1])
    ensures TrimEnd(t) == t
  {
  }

  /** After one white-space character, a value running to the end of its line is captured whole. */
  lemma CapturedWholeValue(s: string, m: nat, v: string)
    requires v != [] && !IsWhitespace(v[0]) && !IsWhitespace(v[|v| - 1])
    requires forall k :: 0 <= k < |v| ==> !IsLineTerminator(v[k])
    requires m + 1 + |v| <= |s| && IsWhitespace(s[m]) && s[m + 1..m + 1 + |v|] == v
    requires m + 1 + |v| == |s| || IsLineTerminator(s[m + 1 + |v|])
    ensures CapturedValue(s, m) == v
  {
    assert s[m + 1] == v[0];
    SkipWhitespaceStopsAt(s, m, m + 1);
    forall k | m + 1 <= k < m + 1 + |v| ensures !IsLineTerminator(s[k]) {
      assert s[k] == v[k - (m + 1)];
    }
    LineEndAt(s, m + 1, m + 1 + |v|);
    TrimEndOfTrimmed(v);
  }

  /** The key does not occur in the text before `p`. */
  predicate NoKeyBefore(s: string, p: nat)
    requires p <= |s|
  {
    forall k :: 0 <= k < p ==> !(Key <= s[k..p])
  }

  /** An occurrence of the key that ends by `p` is an occurrence in `s[j..p]`. */
  lemma KeyWithin(s: string, j: nat, p: nat)
    ensures j + |Key| <= p <= |s| && s[j..j + |Key|] == Key ==> Key <= s[j..p]
  {
    if j + |Key| <= p <= |s| && s[j..j + |Key|] == Key {
      assert s[j..p][..|Key|] == s[j..j + |Key|];
    }
  }

  /** The key holds no line terminator, so an occurrence never spans the end of a line. */
  lemma KeyAcrossLineEnd(s: string, j: nat, p: nat)
    ensures j < p <= j + |Key| <= |s| && s[j..j + |Key|] == Key ==> !IsLineTerminator(s[p - 1])
  {
    if j < p <= j + |Key| <= |s| && s[j..j + |Key|] == Key {
      assert s[p - 1] == Key[p - 1 - j];
    }
  }

  /**
   * When the key first occurs at the line start `p`, right before ` =`, a
   * head from an earlier position can only be white space up to `p` followed
   * by that same key, so it ends where the head at `p` ends.
   */
  lemma EarlierHeadReachesKey(s: string, p: nat, i: nat, e: nat)
    requires i < p && p + |Key| + 2 <= |s| && IsLineTerminator(s[p - 1])
    requires NoKeyBefore(s, p)
    requires s[p..p + |Key|] == Key && s[p + |Key|] == ' ' && s[p + |Key| + 1] == '='
    requires HeadSpans(s, i, e)
    ensures HeadSpans(s, i, p + |Key| + 2)
  {
    var n := |Key|;
    var j :| i <= j && j + n < e && AllWhitespace(s, i, j)
      && s[j..j + n] == Key && AllWhitespace(s, j + n, e - 1);
    assert !IsWhitespace(s[p]) by { assert s[p] == Key[0]; }
    KeyWithin(s, j, p);
    KeyAcrossLineEnd(s, j, p);
    assert j == p;
    assert AllWhitespace(s, p + n, p + n + 1);
  }

  /**
   * The shape of an assignment line starting at `p`: the key, ` =`, one
   * white-space character, then a value `v` that runs to the end of its line.
   */
  predicate AssignmentLineAt(s: string, p: nat, v: string) {
    && p + |Key| + 3 + |v| <= |s|
    && s[p..p + |Key|] == Key && s[p + |Key|] == ' ' && s[p + |Key| + 1] == '=' && IsWhitespace(s[p + |Key| + 2])
    && s[p + |Key| + 3..p + |Key| + 3 + |v|] == v
    && (p + |Key| + 3 + |v| == |s| || IsLineTerminator(s[p + |Key| + 3 + |v|]))
  }

  /** A value as a written-out line holds it: not empty, trimmed, on one line. */
  predicate TrimmedLine(v: string) {
    && v != [] && !IsWhitespace(v[0]) && !IsWhitespace(v[|v| - 1])
    && forall k :: 0 <= k < |v| ==> !IsLineTerminator(v[k])
  }

  lemma MatchAtAssignmentLine(s: string, p: nat, v: string)
    requires AssignmentLineAt(s, p, v) && TrimmedLine(v)
    ensures HeadSpans(s, p, p + |Key| + 2) && CapturedValue(s, p + |Key| + 2) == v
    ensures AtLineStart(s, p) ==> MatchAt(s, p) == Some(v)
  {
    var n := |Key|;
    assert AllWhitespace(s, p, p) && AllWhitespace(s, p + n, p + n + 1);
    CapturedWholeValue(s, p + n + 2, v);
    MatchAtHead(s, p);
  }

  /**
   * An assignment line at a line start `p` supplies the value when the key
   * does not occur before `p`.
   */
  lemma AssignmentLineIsFound(s: string, p: nat, v: string)
    requires AssignmentLineAt(s, p, v) && TrimmedLine(v)
    requires p == 0 || IsLineTerminator(s[p - 1])
    requires NoKeyBefore(s, p)
    ensures MatchVaultPasswordFile(s) == Some(v)
  {
    MatchAtAssignmentLine(s, p, v);
    var i := EarliestMatchUpTo(s, p);
    MatchUpToIsSame(s, p, i, v);
  }

  /** When the pattern matches at `p`, the result comes from a matching position no later than `p`. */
  lemma EarliestMatchUpTo(s: string, p: nat) returns (i: nat)
    requires p <= |s| && MatchAt(s, p).Some?
    ensures i <= p && MatchAt(s, i).Some? && MatchVaultPasswordFile(s) == MatchAt(s, i)
  {
    NoMatchIffNoKeyAssignment(s);
    i := MatchIsEarliest(s);
  }

  /**
   * A match at or before the assignment line yields its value: one before
   * it reads its head up to the same `=`.
   */
  lemma MatchUpToIsSame(s: string, p: nat, i: nat, v: string)
    requires AssignmentLineAt(s, p, v) && TrimmedLine(v)
    requires p == 0 || IsLineTerminator(s[p - 1])
    requires NoKeyBefore(s, p)
    requires i <= p && MatchAt(s, i).Some?
    ensures MatchAt(s, i) == Some(v)
  {
    if i < p {
      EarlierMatchIsSame(s, p, i, v);
    } else {
      MatchAtAssignmentLine(s, p, v);
    }
  }

  /** A match before the assignment line reads its head up to the same `=`, hence the same value. */
  lemma EarlierMatchIsSame(s: string, p: nat, i: nat, v: string)
    requires AssignmentLineAt(s, p, v) && TrimmedLine(v)
    requires i < p && IsLineTerminator(s[p - 1])
    requires NoKeyBefore(s, p)
    requires MatchAt(s, i).Some?
    ensures MatchAt(s, i) == Some(v)
  {
    MatchAtAssignmentLine(s, p, v);
    MatchAtHead(s, i);
    var e :| HeadSpans(s, i, e);
    EarlierHeadReachesKey(s, p, i, e);
  }

  /**
   * A written-out assignment line is read back: the value of
   * `vault_password_file = v` is `v`, whatever lines follow it and whatever
   * lines precede it, as long as the key does not occur before it.
   */
  lemma AssignmentLineRoundTrip(pre: string, v: string, rest: string)
    requires pre == [] || IsLineTerminator(pre[|pre| - 1])
    requires forall k :: 0 <= k < |pre| ==> !(Key <= pre[k..])
    requires v != [] && !IsWhitespace(v[0]) && !IsWhitespace(v[|v| - 1])
    requires forall k :: 0 <= k < |v| ==> !IsLineTerminator(v[k])
    ensures MatchVaultPasswordFile(pre + Key + " = " + v + "\n" + rest) == Some(v)
  {
    var s := pre + Key + " = " + v + "\n" + rest;
    AssignmentLineAfter(pre, v, rest);
    AssignmentLineIsFound(s, |pre|, v);
  }

  /** The text `pre`, an assignment line for `v` and `rest` has the shape of an assignment line after `pre`. */
  lemma AssignmentLineAfter(pre: string, v: string, rest: string)
    requires pre == [] || IsLineTerminator(pre[|pre| - 1])
    requires forall k :: 0 <= k < |pre| ==> !(Key <= pre[k..])
    ensures var s := pre + Key + " = " + v + "\n" + rest;
      && AssignmentLineAt(s, |pre|, v)
      && (|pre| == 0 || IsLineTerminator(s[|pre| - 1]))
      && NoKeyBefore(s, |pre|)
  {
    var line := Key + " = " + v + "\n" + rest;
    var s := pre + Key + " = " + v + "\n" + rest;
    assert s == pre + line;
    AssignmentLineShape(v, rest);
    ShiftAssignmentLine(pre, line, v);
    ShiftNoKey(pre, line);
  }

  lemma AssignmentLineShape(v: string, rest: string)
    ensures AssignmentLineAt(Key + " = " + v + "\n" + rest, 0, v)
  {
    var line := Key + " = " + v + "\n" + rest;
    var n, tail := |Key|, v + "\n" + rest;
    assert line == (Key + " = ") + tail && |Key + " = "| == n + 3;
    assert line[0..n] == Key;
    assert line[n] == ' ' && line[n + 1] == '=' && line[n + 2] == ' ';
    forall k | 0 <= k < |v| ensures line[n + 3 + k] == v[k] {
      assert line[n + 3 + k] == tail[k];
    }
    assert line[n + 3..n + 3 + |v|] == v;
    assert line[n + 3 + |v|] == tail[|v|] == '\n';
  }

  lemma ShiftAssignmentLine(pre: string, line: string, v: string)
    requires AssignmentLineAt(line, 0, v)
    ensures AssignmentLineAt(pre + line, |pre|, v)
  {
    var s, p, n := pre + line, |pre|, |Key|;
    assert s[p..p + n] == line[0..n];
    assert s[p + n + 3..p + n + 3 + |v|] == line[n + 3..n + 3 + |v|];
  }

  lemma ShiftNoKey(pre: string, line: string)
    requires forall k :: 0 <= k < |pre| ==> !(Key <= pre[k..])
    ensures NoKeyBefore(pre + line, |pre|)
  {
    var s, p := pre + line, |pre|;
    forall k | 0 <= k < p ensures !(Key <= s[k..p]) {
      assert s[k..p] == pre[k..];
    }
  }

  /**
   * `\s` also matches line terminators, so when the key is given an empty
   * value the `\s*` after `=` runs on into the next line, and that line's text
   * is returned as the password file.
   */
  lemma EmptyValueTakesNextLine(next: string)
    requires next != [] && !IsWhitespace(next[0]) && !IsWhitespace(next[|next| - 1])
    requires forall k :: 0 <= k < |next| ==> !IsLineTerminator(next[k])
    ensures MatchVaultPasswordFile(Key + " =\n" + next) == Some(next)
  {
    var s := Key + " =\n" + next;
    var n := |Key|;
    assert s == (Key + " =\n") + next && |Key + " =\n"| == n + 3;
    assert s[0..n] == Key && s[n] == ' ' && s[n + 1] == '=' && s[n + 2] == '\n';
    assert s[n + 3..n + 3 + |next|] == next;
    AssignmentLineIsFound(s, 0, next);
  }
}
