/** The pieces of Rust's `str` API the endpoint relies on: `find`, `contains`
    and `split` with a non-empty string pattern, and the inverse of `split`,
    `join`. Strings are sequences of characters. */
module RustStr {
  import opened Wrappers

  /** `sub` occurs in `s` starting at index `i`. */
  predicate IsAt(s: string, sub: string, i: nat) {
    i + |sub| <= |s| && s[i..i + |sub|] == sub
  }

  /** The first index at or after `from` where `sub` occurs in `s`. */
  function IndexFrom(s: string, sub: string, from: nat): (r: Option<nat>)
    requires from <= |s|
    decreases |s| - from
    ensures r.Some? ==> from <= r.value && IsAt(s, sub, r.value)
  {
    if IsAt(s, sub, from) then Some(from)
    else if from == |s| then None
    else IndexFrom(s, sub, from + 1)
  }

  /** `IndexFrom` finds the first occurrence: none lies between `from` and
      the index it returns, and none at all lies at or after `from` when it
      returns nothing. */
  lemma {:induction false} IndexFromIsFirst(s: string, sub: string, from: nat)
    requires from <= |s|
    decreases |s| - from
    ensures IndexFrom(s, sub, from).Some? ==>
      forall j :: from <= j < IndexFrom(s, sub, from).value ==> !IsAt(s, sub, j)
    ensures IndexFrom(s, sub, from).None? ==> forall j :: from <= j ==> !IsAt(s, sub, j)
  {
    if !IsAt(s, sub, from) && from < |s| {
      IndexFromIsFirst(s, sub, from + 1);
    }
  }

  /** `str::find`: the first index where `sub` occurs. */
  function Find(s: string, sub: string): Option<nat> {
    IndexFrom(s, sub, 0)
  }

  /** `str::contains`. */
  predicate Contains(s: string, sub: string) {
    Find(s, sub).Some?
  }

  /** An occurrence of `sub` at `i` with none before it is what `Find` returns. */
  lemma FindIsFirst(s: string, sub: string, i: nat)
    requires IsAt(s, sub, i)
    requires forall j :: 0 <= j < i ==> !IsAt(s, sub, j)
    ensures Find(s, sub) == Some(i)
  {
    IndexFromIsFirst(s, sub, 0);
  }

  /** An occurrence anywhere makes `contains` hold. */
  lemma ContainsAt(s: string, sub: string, i: nat)
    requires IsAt(s, sub, i)
    ensures Contains(s, sub)
  {
    IndexFromIsFirst(s, sub, 0);
  }

  /** For a one-character pattern, containment is membership of that character. */
  lemma ContainsChar(s: string, sep: string)
    requires |sep| == 1
    ensures Contains(s, sep) <==> sep[0] in s
  {
    if Contains(s, sep) {
      var i := Find(s, sep).value;
      assert s[i] == s[i..i + 1][0];
    }
    if sep[0] in s {
      var i :| 0 <= i < |s| && s[i] == sep[0];
      assert s[i..i + 1] == [s[i]];
      ContainsAt(s, sep, i);
    }
  }

  /** A string lacking the pattern's first character does not contain the pattern. */
  lemma AbsentHeadChar(s: string, sub: string)
    requires |sub| > 0 && sub[0] !in s
    ensures !Contains(s, sub)
  {
    forall j | 0 <= j
      ensures !IsAt(s, sub, j)
    {
      if j + |sub| <= |s| {
        assert s[j..j + |sub|][0] == s[j];
      }
    }
  }

  /** The text before the first occurrence of `sep`, or all of `s` without one. */
  function Before(s: string, sep: string): (r: string)
    ensures |r| <= |s| && r == s[..|r|]
  {
    match Find(s, sep)
    case Some(i) => s[..i]
    case None => assert s[..|s|] == s; s
  }

  /** The text after the first occurrence of `sep`. */
  function After(s: string, sep: string): (r: string)
    requires Contains(s, sep)
    ensures s == Before(s, sep) + sep + r
  {
    var i := Find(s, sep).value;
    assert IsAt(s, sep, i);
    assert Before(s, sep) == s[..i];
    assert s == s[..i] + sep + s[i + |sep|..];
    s[i + |sep|..]
  }

  /** `str::split(sep).collect()` for a non-empty `sep`: every piece between
      non-overlapping occurrences found left to right, empty pieces kept. */
  function Split(s: string, sep: string): (r: seq<string>)
    requires |sep| > 0
    decreases |s|
    ensures |r| >= 1
  {
    match Find(s, sep)
    case None => [s]
    case Some(i) => [s[..i]] + Split(s[i + |sep|..], sep)
  }

  /** `slice.join(sep)`: the pieces with `sep` between consecutive ones. */
  function Join(parts: seq<string>, sep: string): string {
    if |parts| == 0 then ""
    else if |parts| == 1 then parts[0]
    else parts[0] + sep + Join(parts[1..], sep)
  }

  /** How a split begins: its first piece is the text before the first
      separator; there is a second piece exactly when the separator occurs,
      and the remaining pieces are the split of the text after it. */
  lemma SplitHead(s: string, sep: string)
    requires |sep| > 0
    ensures Split(s, sep)[0] == Before(s, sep)
    ensures |Split(s, sep)| >= 2 <==> Contains(s, sep)
    ensures Contains(s, sep) ==> Split(s, sep)[1..] == Split(After(s, sep), sep)
  {
  }

  /** The piece at index 1: the text between the first and the second separator
      (or up to the end when there is no second one). */
  lemma SplitSecond(s: string, sep: string)
    requires |sep| > 0 && Contains(s, sep)
    ensures |Split(s, sep)| >= 2
    ensures Split(s, sep)[1] == Before(After(s, sep), sep)
  {
    SplitHead(s, sep);
    SplitHead(After(s, sep), sep);
    assert Split(s, sep)[1] == Split(s, sep)[1..][0];
  }

  /** The text before the first separator holds no separator. */
  lemma BeforeIsFree(s: string, sep: string)
    requires |sep| > 0
    ensures !Contains(Before(s, sep), sep)
  {
    match Find(s, sep)
    case None =>
    case Some(i) =>
      IndexFromIsFirst(s, sep, 0);
      var b := s[..i];
      assert Before(s, sep) == b;
      forall j | 0 <= j
        ensures !IsAt(b, sep, j)
      {
        if j + |sep| <= |b| {
          assert b[j..j + |sep|] == s[j..j + |sep|];
          assert !IsAt(s, sep, j);
        }
      }
  }

  /** Splitting and joining again gives back the original string. */
  lemma {:induction false} SplitJoin(s: string, sep: string)
    requires |sep| > 0
    ensures Join(Split(s, sep), sep) == s
    decreases |s|
  {
    match Find(s, sep)
    case None =>
    case Some(i) =>
      var rest := s[i + |sep|..];
      var r := Split(rest, sep);
      SplitJoin(rest, sep);
      assert Split(s, sep) == [s[..i]] + r;
      assert ([s[..i]] + r)[1..] == r;
      assert s == s[..i] + s[i..i + |sep|] + rest;
  }

  /** If the separator's first character is missing from `a`, the first
      separator of `a + sep + b` is the one right after `a`. */
  lemma FirstSeparatorAfter(a: string, sep: string, b: string)
    requires |sep| > 0 && sep[0] !in a
    ensures Contains(a + sep + b, sep)
    ensures Before(a + sep + b, sep) == a
    ensures After(a + sep + b, sep) == b
  {
    var s := a + sep + b;
    assert s[|a|..|a| + |sep|] == sep;
    forall j | 0 <= j < |a|
      ensures !IsAt(s, sep, j)
    {
      assert s[j] == a[j];
      if j + |sep| <= |s| {
        assert s[j..j + |sep|][0] == s[j];
      }
    }
    FindIsFirst(s, sep, |a|);
    assert s[|a| + |sep|..] == b;
  }

  /** Joining pieces that avoid a one-character separator and splitting again
      gives back the pieces. */
  lemma {:induction false} JoinSplit(parts: seq<string>, sep: string)
    requires |sep| == 1 && |parts| >= 1
    requires forall k :: 0 <= k < |parts| ==> sep[0] !in parts[k]
    ensures Split(Join(parts, sep), sep) == parts
  {
    if |parts| == 1 {
      ContainsChar(parts[0], sep);
    } else {
      var rest := parts[1..];
      JoinSplit(rest, sep);
      var s := Join(parts, sep);
      assert s == parts[0] + sep + Join(rest, sep);
      FirstSeparatorAfter(parts[0], sep, Join(rest, sep));
      var i := Find(s, sep).value;
      assert i == |parts[0]|;
      assert s[i + |sep|..] == Join(rest, sep);
      assert Split(s, sep) == [s[..i]] + Split(Join(rest, sep), sep);
    }
  }

  /** A character missing from every piece and from the separator is missing
      from their join. */
  lemma {:induction false} JoinAvoids(parts: seq<string>, sep: string, c: char)
    requires c !in sep
    requires forall k :: 0 <= k < |parts| ==> c !in parts[k]
    ensures c !in Join(parts, sep)
  {
    if |parts| > 1 {
      JoinAvoids(parts[1..], sep, c);
    }
  }

  /** Joining with one more piece at the end adds the separator and the piece. */
  lemma {:induction false} JoinSnoc(parts: seq<string>, last: string, sep: string)
    requires |parts| >= 1
    ensures Join(parts + [last], sep) == Join(parts, sep) + sep + last
  {
    if |parts| > 1 {
      JoinSnoc(parts[1..], last, sep);
      assert (parts + [last])[1..] == parts[1..] + [last];
    }
  }

  /** The position of the last string in `xs` that contains `needle`, as a
      left-to-right scan that overwrites its choice on every match finds it. */
  function LastContaining(xs: seq<string>, needle: string): (r: Option<nat>)
    ensures r.Some? ==> r.value < |xs| && Contains(xs[r.value], needle)
  {
    if xs == [] then None
    else if Contains(xs[|xs| - 1], needle) then Some(|xs| - 1)
    else LastContaining(xs[..|xs| - 1], needle)
  }

  /** `LastContaining` finds the last match: no string after the one it
      returns contains `needle`, and none does when it returns nothing. */
  lemma {:induction false} LastContainingIsLast(xs: seq<string>, needle: string)
    ensures LastContaining(xs, needle).Some? ==>
      forall k :: LastContaining(xs, needle).value < k < |xs| ==> !Contains(xs[k], needle)
    ensures LastContaining(xs, needle).None? ==> forall k :: 0 <= k < |xs| ==> !Contains(xs[k], needle)
  {
    if xs != [] && !Contains(xs[|xs| - 1], needle) {
      var init := xs[..|xs| - 1];
      LastContainingIsLast(init, needle);
      assert forall k :: 0 <= k < |init| ==> init[k] == xs[k];
    }
  }

  /** A match with no match after it is the last one. */
  lemma LastContainingIs(xs: seq<string>, needle: string, j: nat)
    requires j < |xs| && Contains(xs[j], needle)
    requires forall k :: j < k < |xs| ==> !Contains(xs[k], needle)
    ensures LastContaining(xs, needle) == Some(j)
  {
    LastContainingIsLast(xs, needle);
  }

  /** Scanning one more string: a match there becomes the last one. */
  lemma LastContainingStep(xs: seq<string>, i: nat, needle: string)
    requires i < |xs|
    ensures LastContaining(xs[..i + 1], needle)
         == if Contains(xs[i], needle) then Some(i) else LastContaining(xs[..i], needle)
  {
    assert xs[..i + 1][..i] == xs[..i];
  }
}
