/** The few Python `str` and `list` operations the quote import relies on:
    `str.find`, `str.split(sep)`, slicing from an index, and
    `filter(''.__ne__, ...)`. Strings are `seq<char>`. */
module PyStr {

  datatype Option<T> = None | Some(value: T)

  /** `sep` occurs in `s` starting at index `i`. */
  predicate OccursAt(s: string, sep: string, i: int)
  {
    0 <= i && i + |sep| <= |s| && s[i..i + |sep|] == sep
  }

  /** `sep` occurs somewhere in `s` (Python's `sep in s`). */
  predicate Contains(s: string, sep: string)
  {
    exists i :: 0 <= i <= |s| && OccursAt(s, sep, i)
  }

  /** The first occurrence of `sep` in `s` at or after `k`; what it finds
      is stated by `IndexFromFirst`. */
  function IndexFrom(s: string, sep: string, k: nat): (r: Option<nat>)
    requires k <= |s|
    ensures r.Some? ==> k <= r.value && r.value + |sep| <= |s|
    decreases |s| - k
  {
    if k + |sep| > |s| then None
    else if s[k..k + |sep|] == sep then Some(k)
    else IndexFrom(s, sep, k + 1)
  }

  /** The scan finds an occurrence at or after `k` with none between `k`
      and it, or reports that there is none at or after `k`. */
  lemma {:induction false} IndexFromFirst(s: string, sep: string, k: nat)
    requires k <= |s|
    ensures IndexFrom(s, sep, k).None? ==> forall i :: k <= i ==> !OccursAt(s, sep, i)
    ensures IndexFrom(s, sep, k).Some? ==> OccursAt(s, sep, IndexFrom(s, sep, k).value)
    ensures IndexFrom(s, sep, k).Some? ==>
              forall j :: k <= j < IndexFrom(s, sep, k).value ==> !OccursAt(s, sep, j)
    decreases |s| - k
  {
    if k + |sep| <= |s| && s[k..k + |sep|] != sep {
      IndexFromFirst(s, sep, k + 1);
    }
  }

  /** The first occurrence of `sep` in `s`, if any; what it finds is stated
      by `IndexOfFirst`. */
  function IndexOf(s: string, sep: string): (r: Option<nat>)
    ensures r.Some? ==> r.value + |sep| <= |s|
  {
    IndexFrom(s, sep, 0)
  }

  /** `IndexOf` finds nothing exactly when `sep` does not occur, and
      otherwise an occurrence with no earlier one. */
  lemma {:induction false} IndexOfFirst(s: string, sep: string)
    ensures IndexOf(s, sep).None? <==> !Contains(s, sep)
    ensures IndexOf(s, sep).Some? ==> OccursAt(s, sep, IndexOf(s, sep).value)
    ensures IndexOf(s, sep).Some? ==> forall j :: 0 <= j < IndexOf(s, sep).value ==> !OccursAt(s, sep, j)
  {
    IndexFromFirst(s, sep, 0);
  }

  /** Python's `s.find(sep)`: the first index of `sep`, or -1. */
  function Find(s: string, sep: string): (r: int)
    ensures r == -1 <==> !Contains(s, sep)
    ensures r != -1 ==> OccursAt(s, sep, r) && forall j :: 0 <= j < r ==> !OccursAt(s, sep, j)
  {
    IndexOfFirst(s, sep);
    match IndexOf(s, sep)
    case None => -1
    case Some(i) => i
  }

  /** Python's `s[start:]`: a negative start counts from the end, and a
      start past either end is clamped. */
  function SliceFrom(s: string, start: int): (r: string)
    ensures start >= 0 ==> r == s[if start <= |s| then start else |s|..]
    ensures start < 0 ==> r == s[if -start <= |s| then |s| + start else 0..]
  {
    if start >= |s| then []
    else if start >= 0 then s[start..]
    else if |s| + start >= 0 then s[|s| + start..]
    else s
  }

  /** Python's `s.split(sep)` for a non-empty separator: the pieces between
      non-overlapping occurrences of `sep`, scanned left to right. */
  function Split(s: string, sep: string): (r: seq<string>)
    requires |sep| > 0
    ensures |r| >= 1
    ensures r[0] <= s
    decreases |s|
  {
    match IndexOf(s, sep)
    case None => [s]
    case Some(i) => [s[..i]] + Split(s[i + |sep|..], sep)
  }

  /** Python's `sep.join(pieces)`. */
  function Join(pieces: seq<string>, sep: string): string
  {
    if |pieces| == 0 then []
    else if |pieces| == 1 then pieces[0]
    else pieces[0] + sep + Join(pieces[1..], sep)
  }

  /** `list(filter(''.__ne__, lines))`: the non-empty lines, in order. */
  function NonEmpty(lines: seq<string>): (r: seq<string>)
    ensures |r| <= |lines|
    ensures forall k :: 0 <= k < |r| ==> r[k] != []
    ensures forall x :: x in r <==> x in lines && x != []
  {
    if lines == [] then []
    else if lines[0] == [] then NonEmpty(lines[1..])
    else [lines[0]] + NonEmpty(lines[1..])
  }

  /** Joining the pieces of a split with the same separator gives back the
      original string. */
  lemma {:induction false} JoinSplit(s: string, sep: string)
    requires |sep| > 0
    ensures Join(Split(s, sep), sep) == s
    decreases |s|
  {
    match IndexOf(s, sep)
    case None =>
    case Some(i) =>
      var rest := s[i + |sep|..];
      var ps := Split(rest, sep);
      var all := [s[..i]] + ps;
      assert all[0] == s[..i] && all[1..] == ps;
      IndexOfFound(s, sep);
      calc {
        Join(Split(s, sep), sep);
      == { SplitAt(s, sep, i); }
        Join(all, sep);
      ==
        s[..i] + sep + Join(ps, sep);
      == { JoinSplit(rest, sep); }
        s[..i] + s[i..i + |sep|] + rest;
      ==
        s;
      }
  }

  /** No piece of a split contains the separator. */
  lemma {:induction false} SplitPiecesFree(s: string, sep: string)
    requires |sep| > 0
    ensures forall k :: 0 <= k < |Split(s, sep)| ==> !Contains(Split(s, sep)[k], sep)
    decreases |s|
  {
    IndexOfFirst(s, sep);
    match IndexOf(s, sep)
    case None =>
    case Some(i) =>
      var rest := s[i + |sep|..];
      SplitAt(s, sep, i);
      SplitPiecesFree(rest, sep);
      assert !Contains(s[..i], sep) by {
        forall j | OccursAt(s[..i], sep, j) ensures false {
          assert s[..i][j..j + |sep|] == s[j..j + |sep|];
          assert OccursAt(s, sep, j);
        }
      }
  }

  /** Where `IndexOf` finds something, the separator is there. */
  lemma {:induction false} IndexOfFound(s: string, sep: string)
    ensures IndexOf(s, sep).Some? ==> s[IndexOf(s, sep).value..IndexOf(s, sep).value + |sep|] == sep
  {
    IndexOfFirst(s, sep);
  }

  /** A string that lacks one of the separator's characters does not
      contain the separator. */
  lemma {:induction false} MissingCharNotContained(s: string, sep: string, k: nat)
    requires k < |sep| && sep[k] !in s
    ensures !Contains(s, sep)
  {
    forall i | 0 <= i <= |s| ensures !OccursAt(s, sep, i) {
      if i + |sep| <= |s| {
        assert s[i..i + |sep|][k] == s[i + k];
        assert s[i + k] in s;
      }
    }
  }

  /** The separator placed after `a` is its first occurrence when some
      character `sep[k]` appears nowhere in `a + sep[..k]`: an earlier
      occurrence would have put that character there. */
  lemma {:induction false} IndexOfAfter(a: string, sep: string, b: string, k: nat)
    requires k < |sep| && sep[k] !in a + sep[..k]
    ensures IndexOf(a + sep + b, sep) == Some(|a|)
  {
    var s := a + sep + b;
    IndexOfFirst(s, sep);
    assert s[|a|..|a| + |sep|] == sep;
    assert OccursAt(s, sep, |a|);
    forall j | 0 <= j < |a| ensures !OccursAt(s, sep, j) {
      if j + |sep| <= |s| {
        assert s[j..j + |sep|][k] == s[j + k];
        assert s[j + k] == (a + sep[..k])[j + k];
      }
    }
  }

  /** A join of two or more pieces starts with the first piece, the
      separator and the second piece. */
  lemma {:induction false} JoinFirstTwo(ps: seq<string>, sep: string)
    requires |ps| >= 2
    ensures Join(ps, sep) == ps[0] + sep + ps[1] + (if |ps| == 2 then [] else sep + Join(ps[2..], sep))
  {
    assert ps[1..][0] == ps[1];
    if |ps| > 2 {
      assert ps[1..][1..] == ps[2..];
    }
  }

  /** The first piece of a split runs up to the first occurrence, the second
      up to the next one or the end, and the string is the first piece, the
      separator, the second piece and then either nothing or the separator
      and the remaining pieces joined. */
  lemma {:induction false} SplitFirstTwo(s: string, sep: string)
    requires |sep| > 0 && Contains(s, sep)
    ensures var ps := Split(s, sep);
            && |ps| >= 2
            && ps[0] == s[..IndexOf(s, sep).value]
            && s == ps[0] + sep + ps[1] + (if |ps| == 2 then [] else sep + Join(ps[2..], sep))
  {
    var ps := Split(s, sep);
    IndexOfFirst(s, sep);
    assert |ps| >= 2 && ps[0] == s[..IndexOf(s, sep).value];
    JoinSplit(s, sep);
    JoinFirstTwo(ps, sep);
  }

  /** A string made of a piece, the separator and a piece splits into those
      two pieces when some character of the separator occurs neither in the
      second piece nor in the first followed by the part of the separator
      before that character. */
  lemma {:induction false} SplitInTwo(a: string, sep: string, b: string, k: nat)
    requires k < |sep| && sep[k] !in a + sep[..k] && sep[k] !in b
    ensures Split(a + sep + b, sep) == [a, b]
  {
    var s := a + sep + b;
    IndexOfAfter(a, sep, b, k);
    SplitAt(s, sep, |a|);
    assert s[..|a|] == a && s[|a| + |sep|..] == b;
    SplitWhole(b, sep, k);
  }

  /** Text without the separator character is one piece. */
  lemma {:induction false} SplitWhole(s: string, sep: string, k: nat)
    requires k < |sep| && sep[k] !in s
    ensures Split(s, sep) == [s]
  {
    MissingCharNotContained(s, sep, k);
    IndexOfFirst(s, sep);
  }

  /** A string splits into two or more pieces exactly when it contains the
      separator. */
  lemma {:induction false} SplitMany(s: string, sep: string)
    requires |sep| > 0
    ensures |Split(s, sep)| >= 2 <==> Contains(s, sep)
  {
    IndexOfFirst(s, sep);
  }

  /** The first occurrence of a one-character separator in `a + sep + b` is
      the first one in `a`, or the one just after `a`. */
  lemma {:induction false} IndexOfConcat(a: string, sep: string, b: string)
    requires |sep| == 1
    ensures IndexOf(a + sep + b, sep) == if IndexOf(a, sep).Some? then IndexOf(a, sep) else Some(|a|)
  {
    var s := a + sep + b;
    IndexOfFirst(s, sep);
    IndexOfFirst(a, sep);
    assert OccursAt(s, sep, |a|) by { assert s[|a|..|a| + 1] == sep; }
    forall j | 0 <= j < |a| ensures OccursAt(s, sep, j) <==> OccursAt(a, sep, j) {
      assert s[j..j + 1] == a[j..j + 1];
    }
    if IndexOf(a, sep).Some? {
      var i := IndexOf(a, sep).value;
      assert i < |a|;
      assert IndexOf(s, sep) == Some(i);
    }
  }

  /** One step of a split: the piece before the first occurrence, then the
      split of what follows it. */
  lemma {:induction false} SplitAt(s: string, sep: string, i: nat)
    requires |sep| > 0 && IndexOf(s, sep) == Some(i)
    ensures Split(s, sep) == [s[..i]] + Split(s[i + |sep|..], sep)
  {
  }

  /** Before the leftmost occurrence at `i`, not even a partial copy of
      the separator running into it completes an occurrence. */
  lemma {:induction false} LeftmostHead(s: string, sep: string, i: nat)
    requires |sep| > 0 && IndexOf(s, sep) == Some(i)
    ensures !Contains(s[..i] + sep[..|sep| - 1], sep)
  {
    IndexOfFirst(s, sep);
    var head := s[..i] + sep[..|sep| - 1];
    assert head == s[..i + |sep| - 1] by {
      assert s[i..i + |sep|] == sep;
      assert s[..i + |sep| - 1] == s[..i] + s[i..i + |sep|][..|sep| - 1];
    }
    forall j | 0 <= j <= |head| && OccursAt(head, sep, j) ensures false {
      assert head[j..j + |sep|] == s[j..j + |sep|];
      assert OccursAt(s, sep, j);
    }
  }

  /** Every piece but the last ends where the leftmost occurrence of the
      separator after it begins: the piece followed by all but the last
      character of the separator still does not contain the separator.
      With `JoinSplit` and `SplitPiecesFree` this fixes every piece, also
      for a separator that overlaps itself. */
  lemma {:induction false} SplitLeftmost(s: string, sep: string)
    requires |sep| > 0
    ensures forall k :: 0 <= k < |Split(s, sep)| - 1 ==>
              !Contains(Split(s, sep)[k] + sep[..|sep| - 1], sep)
    decreases |s|
  {
    match IndexOf(s, sep)
    case None =>
    case Some(i) =>
      var rest := s[i + |sep|..];
      var ps := Split(s, sep);
      SplitAt(s, sep, i);
      SplitLeftmost(rest, sep);
      LeftmostHead(s, sep, i);
      forall k | 1 <= k < |ps| - 1 ensures ps[k] == Split(rest, sep)[k - 1] { }
  }

  /** Splitting on a one-character separator distributes over a piece of
      text, one separator and more text: this is what keeps lines in file
      order. */
  lemma {:induction false} SplitConcat(a: string, sep: string, b: string)
    requires |sep| == 1
    ensures Split(a + sep + b, sep) == Split(a, sep) + Split(b, sep)
    decreases |a|
  {
    var s := a + sep + b;
    match IndexOf(a, sep)
    case Some(i) =>
      var rest := a[i + 1..];
      calc {
        Split(s, sep);
      == { IndexOfConcat(a, sep, b); SplitAt(s, sep, i); }
        [s[..i]] + Split(s[i + 1..], sep);
      == { assert s[..i] == a[..i]; assert s[i + 1..] == rest + sep + b; }
        [a[..i]] + Split(rest + sep + b, sep);
      == { SplitConcat(rest, sep, b); }
        [a[..i]] + (Split(rest, sep) + Split(b, sep));
      ==
        ([a[..i]] + Split(rest, sep)) + Split(b, sep);
      == { SplitAt(a, sep, i); }
        Split(a, sep) + Split(b, sep);
      }
    case None =>
      calc {
        Split(s, sep);
      == { IndexOfConcat(a, sep, b); SplitAt(s, sep, |a|); }
        [s[..|a|]] + Split(s[|a| + 1..], sep);
      == { assert s[..|a|] == a; assert s[|a| + 1..] == b; }
        [a] + Split(b, sep);
      }
  }

  /** Filtering empty strings distributes over concatenation, so it keeps
      the order of what survives. */
  lemma {:induction false} NonEmptyAppend(a: seq<string>, b: seq<string>)
    ensures NonEmpty(a + b) == NonEmpty(a) + NonEmpty(b)
    decreases |a|
  {
    if a == [] {
      assert a + b == b;
    } else {
      assert (a + b)[0] == a[0];
      assert (a + b)[1..] == a[1..] + b;
      NonEmptyAppend(a[1..], b);
    }
  }
}
