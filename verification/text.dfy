/**
 * String helpers the buffer is built on: Go's `strings.HasSuffix`, `strings.Split(s, "\n")`
 * and the newline-joining loop of `MultiLine.content()`. A character is one atomic unit.
 */
module Text {

  /** `strings.HasSuffix(s, t)`: `t` is the tail of `s`. */
  predicate EndsWith(s: string, t: string) {
    |t| <= |s| && s[|s| - |t|..] == t
  }

  /** The parts with a single "\n" between neighbours and no trailing newline. */
  function Join(parts: seq<string>): string {
    if |parts| == 0 then ""
    else if |parts| == 1 then parts[0]
    else parts[0] + "\n" + Join(parts[1..])
  }

  /** `strings.Split(s, "\n")`: the maximal newline-free pieces between the newlines of `s`. */
  function SplitLines(s: string): (parts: seq<string>)
    ensures |parts| >= 1
    ensures forall i | 0 <= i < |parts| :: '\n' !in parts[i]
  {
    if |s| == 0 then [""]
    else
      var rest := SplitLines(s[1..]);
      if s[0] == '\n' then [""] + rest
      else [[s[0]] + rest[0]] + rest[1..]
  }

  /** Joining the pieces of a split gives back the original text, for every text. */
  lemma {:induction false} JoinSplitLines(s: string)
    ensures Join(SplitLines(s)) == s
  {
    if |s| == 0 {
    } else {
      var rest := SplitLines(s[1..]);
      JoinSplitLines(s[1..]);
      var parts := SplitLines(s);
      if s[0] == '\n' {
        assert parts == [""] + rest;
        assert parts[1..] == rest;
        assert s == "\n" + s[1..];
      } else if |rest| == 1 {
        assert parts == [[s[0]] + rest[0]];
        assert s == [s[0]] + s[1..];
      } else {
        assert parts[1..] == rest[1..];
        assert Join(rest) == rest[0] + "\n" + Join(rest[1..]);
        assert s == [s[0]] + s[1..];
      }
    }
  }

  /** Splitting `a + b` where `a` holds no newline glues `a` to the first piece of `b`. */
  lemma {:induction false} SplitLinesPrepend(a: string, b: string)
    requires '\n' !in a
    ensures SplitLines(a + b) == [a + SplitLines(b)[0]] + SplitLines(b)[1..]
  {
    if |a| == 0 {
      assert a + b == b;
      assert a + SplitLines(b)[0] == SplitLines(b)[0];
      assert SplitLines(b) == [SplitLines(b)[0]] + SplitLines(b)[1..];
    } else {
      var rest := SplitLines(a[1..] + b);
      assert (a + b)[1..] == a[1..] + b;
      assert (a + b)[0] == a[0] && a[0] != '\n';
      SplitLinesPrepend(a[1..], b);
      assert rest[0] == a[1..] + SplitLines(b)[0];
      assert rest[1..] == SplitLines(b)[1..];
      assert SplitLines(a + b) == [[a[0]] + rest[0]] + rest[1..];
      assert [a[0]] + rest[0] == a + SplitLines(b)[0];
    }
  }

  /** Splitting a join of newline-free parts recovers the parts. */
  lemma {:induction false} SplitLinesJoin(parts: seq<string>)
    requires |parts| >= 1
    requires forall i | 0 <= i < |parts| :: '\n' !in parts[i]
    ensures SplitLines(Join(parts)) == parts
  {
    if |parts| == 1 {
      SplitLinesPrepend(parts[0], "");
      assert parts[0] + "" == parts[0];
    } else {
      var tail := Join(parts[1..]);
      SplitLinesJoin(parts[1..]);
      assert Join(parts) == parts[0] + ("\n" + tail);
      SplitLinesPrepend(parts[0], "\n" + tail);
      assert ("\n" + tail)[1..] == tail;
      assert ("\n" + tail)[0] == '\n';
      assert SplitLines("\n" + tail) == [""] + parts[1..];
      assert parts[0] + "" == parts[0];
      assert parts == [parts[0]] + parts[1..];
    }
  }

  /** Joining two non-empty runs of parts puts one newline at the seam. */
  lemma {:induction false} JoinAppend(xs: seq<string>, ys: seq<string>)
    requires |xs| >= 1 && |ys| >= 1
    ensures Join(xs + ys) == Join(xs) + "\n" + Join(ys)
  {
    if |xs| == 1 {
      assert (xs + ys)[1..] == ys;
    } else {
      assert (xs + ys)[1..] == xs[1..] + ys;
      JoinAppend(xs[1..], ys);
    }
  }

  /** The joined text in front of part `i`, including the newline that ends part `i - 1`. */
  function Before(parts: seq<string>, i: int): string
    requires 0 <= i <= |parts|
  {
    if i == 0 then "" else Join(parts[..i]) + "\n"
  }

  /** The joined text after part `i`, starting with the newline that ends part `i`. */
  function After(parts: seq<string>, i: int): string
    requires 0 <= i < |parts|
  {
    if i == |parts| - 1 then "" else "\n" + Join(parts[i + 1..])
  }

  /** Every part sits in the joined text between what comes before and after it. */
  lemma {:induction false} JoinAt(parts: seq<string>, i: int)
    requires 0 <= i < |parts|
    ensures Join(parts) == Before(parts, i) + parts[i] + After(parts, i)
  {
    var tail := parts[i..];
    assert Join(tail) == parts[i] + After(parts, i) by {
      if i == |parts| - 1 {
        assert tail == [parts[i]];
      } else {
        assert tail[0] == parts[i] && tail[1..] == parts[i + 1..];
        assert Join(tail) == tail[0] + "\n" + Join(tail[1..]);
      }
    }
    if i > 0 {
      assert Join(parts) == Join(parts[..i]) + "\n" + Join(tail) by {
        assert parts == parts[..i] + tail;
        JoinAppend(parts[..i], tail);
      }
      Regroup3(Join(parts[..i]) + "\n", parts[i], After(parts, i), Join(tail));
    } else {
      assert parts == tail;
    }
  }

  /** Concatenation regrouped: `b` followed by a text that is `x + a`. */
  lemma Regroup3(b: string, x: string, a: string, t: string)
    requires t == x + a
    ensures b + t == b + x + a
  {
  }

  /** `Before` of the next part extends `Before` by this part and its newline. */
  lemma BeforeNext(parts: seq<string>, i: int)
    requires 0 <= i < |parts|
    ensures Before(parts, i + 1) == Before(parts, i) + parts[i] + "\n"
  {
    if i > 0 {
      assert parts[..i + 1] == parts[..i] + [parts[i]];
      JoinAppend(parts[..i], [parts[i]]);
    } else {
      assert parts[..1] == [parts[0]];
    }
  }

  /** `After` is empty exactly for the last part. */
  lemma AfterEmpty(parts: seq<string>, i: int)
    requires 0 <= i < |parts|
    ensures After(parts, i) == "" <==> i == |parts| - 1
  {
    if i < |parts| - 1 {
      assert After(parts, i)[0] == '\n';
    }
  }

  /** Dropping the first part shifts `Before` by that part and its newline. */
  lemma BeforeTail(parts: seq<string>, i: int)
    requires 0 < i <= |parts|
    ensures Before(parts, i) == parts[0] + "\n" + Before(parts[1..], i - 1)
  {
    if i > 1 {
      assert parts[..i][1..] == parts[1..][..i - 1];
    } else {
      assert parts[..1] == [parts[0]];
    }
  }

  /** Dropping the first part leaves `After` unchanged. */
  lemma AfterTail(parts: seq<string>, i: int)
    requires 0 < i < |parts|
    ensures After(parts, i) == After(parts[1..], i - 1)
  {
    assert parts[1..][i..] == parts[i + 1..];
  }

  /** Replacing part `i` by two parts keeps what comes before the first and after the second. */
  lemma SplitSurroundings(parts: seq<string>, i: int, k: string, n: string)
    requires 0 <= i < |parts|
    ensures var parts' := parts[..i] + [k, n] + parts[i + 1..];
      Before(parts', i) == Before(parts, i) && After(parts', i + 1) == After(parts, i)
  {
    var parts' := parts[..i] + [k, n] + parts[i + 1..];
    assert parts'[..i] == parts[..i];
    assert parts'[i + 2..] == parts[i + 1..];
  }

  /** Replacing parts `i - 1` and `i` by one part keeps what comes before and after them. */
  lemma MergeSurroundings(parts: seq<string>, i: int, x: string)
    requires 0 < i < |parts|
    ensures var parts' := parts[..i - 1] + [x] + parts[i + 1..];
      Before(parts', i - 1) == Before(parts, i - 1) && After(parts', i - 1) == After(parts, i)
  {
    var parts' := parts[..i - 1] + [x] + parts[i + 1..];
    assert parts'[..i - 1] == parts[..i - 1];
    assert parts'[i..] == parts[i + 1..];
  }

  /** Cutting part `i` at `c` into two parts puts a newline into the joined text at that place. */
  lemma JoinCut(parts: seq<string>, i: int, c: int)
    requires 0 <= i < |parts| && 0 <= c <= |parts[i]|
    ensures var parts' := parts[..i] + [parts[i][..c], parts[i][c..]] + parts[i + 1..];
      && Join(parts') == Before(parts, i) + (parts[i][..c] + "\n" + parts[i][c..]) + After(parts, i)
      && |Before(parts', i + 1)| == |Before(parts, i)| + c + 1
  {
    var (k, n) := (parts[i][..c], parts[i][c..]);
    var parts' := parts[..i] + [k, n] + parts[i + 1..];
    SplitSurroundings(parts, i, k, n);
    BeforeNext(parts', i);
    JoinAt(parts', i + 1);
    assert parts'[i] == k && parts'[i + 1] == n;
  }

  /** Parts `i - 1` and `i` sit in the joined text with one newline between them. */
  lemma JoinNewline(parts: seq<string>, i: int)
    requires 0 < i < |parts|
    ensures Join(parts) == Before(parts, i - 1) + (parts[i - 1] + "\n" + parts[i]) + After(parts, i)
    ensures |Before(parts, i)| == |Before(parts, i - 1)| + |parts[i - 1]| + 1
  {
    var (b, p, l, a) := (Before(parts, i - 1), parts[i - 1], parts[i], After(parts, i));
    assert Before(parts, i) == b + p + "\n" by {
      BeforeNext(parts, i - 1);
    }
    assert Join(parts) == Before(parts, i) + l + a by {
      JoinAt(parts, i);
    }
    NewlineBetween(b, p, l, a, Before(parts, i), Join(parts));
  }

  /** A text that ends `p` and a newline, followed by `l`, holds `p`, a newline and `l` in a row. */
  lemma NewlineBetween(b: string, p: string, l: string, a: string, b': string, j: string)
    requires b' == b + p + "\n" && j == b' + l + a
    ensures j == b + (p + "\n" + l) + a
  {
  }

  /** Gluing parts `i - 1` and `i` into one removes the newline between them from the joined text. */
  lemma JoinGlue(parts: seq<string>, i: int)
    requires 0 < i < |parts|
    ensures var parts' := parts[..i - 1] + [parts[i - 1] + parts[i]] + parts[i + 1..];
      && Join(parts') == Before(parts, i - 1) + (parts[i - 1] + parts[i]) + After(parts, i)
      && Before(parts', i - 1) == Before(parts, i - 1)
  {
    var parts' := parts[..i - 1] + [parts[i - 1] + parts[i]] + parts[i + 1..];
    MergeSurroundings(parts, i, parts[i - 1] + parts[i]);
    JoinAt(parts', i - 1);
  }

  /** Replacing part `i` changes the joined text only between that part's surroundings. */
  lemma JoinReplace(parts: seq<string>, i: int, x: string)
    requires 0 <= i < |parts|
    ensures Join(parts[i := x]) == Before(parts, i) + x + After(parts, i)
    ensures Before(parts[i := x], i) == Before(parts, i)
  {
    var parts' := parts[i := x];
    assert parts'[..i] == parts[..i];
    assert parts'[i + 1..] == parts[i + 1..];
    JoinAt(parts', i);
  }
}
