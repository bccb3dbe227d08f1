/**
 * `commentedText`: `text.split('\n').map((line) => '# ' + line).join('\n')`,
 * with `split` and `join` as JavaScript defines them.
 */
module Comments {

  /** `s.split('\n')`: never empty, and no piece holds a `\n`. */
  function SplitLines(s: string): (ls: seq<string>)
    ensures |ls| >= 1
    ensures forall i :: 0 <= i < |ls| ==> '\n' !in ls[i]
  {
    if s == [] then [""]
    else
      var rest := SplitLines(s[1..]);
      if s[0] == '\n' then [""] + rest
      else [[s[0]] + rest[0]] + rest[1..]
  }

  /** `ls.join('\n')`. */
  function JoinLines(ls: seq<string>): (s: string)
  {
    if ls == [] then ""
    else if |ls| == 1 then ls[0]
    else ls[0] + "\n" + JoinLines(ls[1..])
  }

  /** `.map((line) => '# ' + line)`. */
  function PrefixAll(ls: seq<string>): (r: seq<string>)
    ensures |r| == |ls|
    ensures forall i :: 0 <= i < |ls| ==> r[i] == "# " + ls[i]
  {
    if ls == [] then [] else ["# " + ls[0]] + PrefixAll(ls[1..])
  }

  /**
   * `commentedText(text)`: it starts with the marker `# `, and it is longer
   * than `text` by exactly one marker per line.
   */
  function CommentedText(text: string): (r: string)
    ensures "# " <= r
    ensures |r| == |text| + 2 * |SplitLines(text)|
  {
    JoinSplit(text);
    PrefixedJoinLength(SplitLines(text));
    JoinLines(PrefixAll(SplitLines(text)))
  }

  /** Putting `# ` before every line adds two characters per line to the join. */
  lemma {:induction false} PrefixedJoinLength(ls: seq<string>)
    requires |ls| >= 1
    ensures "# " <= JoinLines(PrefixAll(ls))
    ensures |JoinLines(PrefixAll(ls))| == |JoinLines(ls)| + 2 * |ls|
  {
    if |ls| > 1 {
      PrefixedJoinLength(ls[1..]);
      assert PrefixAll(ls)[1..] == PrefixAll(ls[1..]);
    }
  }

  /** Joining the pieces of a split gives back the text. */
  lemma {:induction false} JoinSplit(s: string)
    ensures JoinLines(SplitLines(s)) == s
  {
    if s != [] {
      JoinSplit(s[1..]);
      var rest := SplitLines(s[1..]);
      if s[0] != '\n' {
        var ls := [[s[0]] + rest[0]] + rest[1..];
        if |rest| > 1 {
          assert ls[1..] == rest[1..];
          assert JoinLines(rest) == rest[0] + "\n" + JoinLines(rest[1..]);
        }
      } else {
        assert ([""] + rest)[1..] == rest;
      }
    }
  }

  /** Splitting a join of lines without `\n` gives back the lines. */
  lemma {:induction false} SplitJoin(ls: seq<string>)
    requires |ls| >= 1
    requires forall i :: 0 <= i < |ls| ==> '\n' !in ls[i]
    ensures SplitLines(JoinLines(ls)) == ls
  {
    if |ls| == 1 {
      SplitSingleLine(ls[0]);
    } else {
      SplitJoin(ls[1..]);
      SplitAround(ls[0], JoinLines(ls[1..]));
      SplitSingleLine(ls[0]);
      assert [ls[0]] + ls[1..] == ls;
    }
  }

  lemma {:induction false} SplitSingleLine(l: string)
    requires '\n' !in l
    ensures SplitLines(l) == [l]
  {
    if l != [] {
      assert '\n' !in l[1..] by {
        forall k | 0 <= k < |l[1..]| ensures l[1..][k] != '\n' { assert l[1..][k] == l[k + 1]; }
      }
      SplitSingleLine(l[1..]);
      assert [l[0]] + l[1..] == l;
    }
  }

  /** Splitting at a `\n` splits the two sides independently. */
  lemma {:induction false} SplitAround(a: string, b: string)
    ensures SplitLines(a + "\n" + b) == SplitLines(a) + SplitLines(b)
  {
    if a == [] {
      assert "\n" + b == [a + "\n" + b][0];
      assert (a + "\n" + b)[1..] == b;
    } else {
      var s := a + "\n" + b;
      assert s[0] == a[0] && s[1..] == a[1..] + "\n" + b;
      SplitAround(a[1..], b);
    }
  }

  lemma {:induction false} JoinAppend(xs: seq<string>, ys: seq<string>)
    requires |xs| >= 1 && |ys| >= 1
    ensures JoinLines(xs + ys) == JoinLines(xs) + "\n" + JoinLines(ys)
  {
    if |xs| > 1 {
      assert (xs + ys)[1..] == xs[1..] + ys;
      JoinAppend(xs[1..], ys);
    } else {
      assert (xs + ys)[1..] == ys;
    }
  }

  lemma PrefixAllAppend(xs: seq<string>, ys: seq<string>)
    ensures PrefixAll(xs + ys) == PrefixAll(xs) + PrefixAll(ys)
  {
  }

  /**
   * The commented text has exactly the lines of `text`, in order, each one
   * preceded by `# `.
   */
  lemma CommentedLines(text: string)
    ensures |SplitLines(CommentedText(text))| == |SplitLines(text)|
    ensures forall i :: 0 <= i < |SplitLines(text)| ==>
      SplitLines(CommentedText(text))[i] == "# " + SplitLines(text)[i]
  {
    var ls := PrefixAll(SplitLines(text));
    forall i | 0 <= i < |ls| ensures '\n' !in ls[i] {
      assert ls[i] == "# " + SplitLines(text)[i];
    }
    SplitJoin(ls);
  }

  /**
   * Commenting distributes over lines: the commented form of `a`, a newline
   * and `b` is the commented `a`, a newline and the commented `b`; in
   * particular the text `b` reappears line by line at the end.
   */
  lemma CommentedAround(a: string, b: string)
    ensures CommentedText(a + "\n" + b) == CommentedText(a) + "\n" + CommentedText(b)
  {
    SplitAround(a, b);
    PrefixAllAppend(SplitLines(a), SplitLines(b));
    JoinAppend(PrefixAll(SplitLines(a)), PrefixAll(SplitLines(b)));
  }
}
