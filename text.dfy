/** String helpers: substring search, `join` and `split` as Rust's `str` and
    `[String]` define them, with the facts that relate them. */
module Text {
  import opened Io

  /** `pat` occurs in `s` starting at index `p`. */
  predicate OccursAt(s: string, pat: string, p: nat) {
    p + |pat| <= |s| && s[p..p + |pat|] == pat
  }

  /** The index of the first occurrence of `pat` in `s`, as `str::find` reports it. */
  function IndexOf(s: string, pat: string): (r: Option<nat>)
    ensures r.Some? ==> OccursAt(s, pat, r.value)
    ensures forall p: nat :: (r.None? || p < r.value) ==> !OccursAt(s, pat, p)
    decreases |s|
  {
    if |s| < |pat| then None
    else if s[..|pat|] == pat then Some(0)
    else
      var r := IndexOf(s[1..], pat);
      assert !OccursAt(s, pat, 0) by { assert s[0..|pat|] == s[..|pat|]; }
      assert forall p: nat :: 1 <= p && OccursAt(s, pat, p) ==> OccursAt(s[1..], pat, p - 1) by {
        forall p: nat | 1 <= p && OccursAt(s, pat, p) ensures OccursAt(s[1..], pat, p - 1) {
          assert s[1..][p - 1..p - 1 + |pat|] == s[p..p + |pat|];
        }
      }
      match r
      case None => None
      case Some(k) => Some(k + 1)
  }

  /** No occurrence of `pat` anywhere in `s`. */
  predicate Avoids(s: string, pat: string) {
    forall p: nat :: p <= |s| ==> !OccursAt(s, pat, p)
  }

  predicate StartsWith(s: string, prefix: string) {
    |prefix| <= |s| && s[..|prefix|] == prefix
  }

  predicate EndsWith(s: string, suffix: string) {
    |suffix| <= |s| && s[|s| - |suffix|..] == suffix
  }

  /** The first character of `pat` recurs nowhere else in it, so two occurrences of
      `pat` never overlap (true of a closing tag such as `</title>`). */
  predicate Unbordered(pat: string) {
    |pat| >= 1 && forall d :: 1 <= d < |pat| ==> pat[d] != pat[0]
  }

  /** In `t + rest`, where `t` holds no `pat` and `rest` starts with one, the first
      occurrence of an unbordered `pat` is the one that starts `rest`. */
  lemma FirstOccurrenceAfter(t: string, rest: string, pat: string)
    requires Unbordered(pat) && Avoids(t, pat) && StartsWith(rest, pat)
    ensures IndexOf(t + rest, pat) == Some(|t|)
  {
    Shifted(t, rest, 0, |pat|);
    assert OccursAt(t + rest, pat, |t|);
    forall p: nat | p < |t|
      ensures !OccursAt(t + rest, pat, p)
    {
      NotBefore(t, rest, pat, p);
    }
  }

  lemma NotBefore(t: string, rest: string, pat: string, p: nat)
    requires Unbordered(pat) && Avoids(t, pat) && StartsWith(rest, pat)
    requires p < |t|
    ensures !OccursAt(t + rest, pat, p)
  {
    var s := t + rest;
    if p + |pat| <= |t| {
      assert s[..|t|] == t;
      SliceOfPrefix(t, s, p, p + |pat|);
      assert !OccursAt(t, pat, p);
    } else if p + |pat| <= |s| {
      var d := |t| - p;
      assert s[p + d] == rest[0] == pat[0];
      FrameChar(s, pat, p, d);
    }
  }

  lemma Shifted<T>(a: seq<T>, b: seq<T>, lo: nat, hi: nat)
    requires lo <= hi <= |b|
    ensures (a + b)[|a| + lo..|a| + hi] == b[lo..hi]
  {
    assert forall k :: lo <= k < hi ==> (a + b)[|a| + k] == b[k];
  }

  lemma FrameChar(s: string, pat: string, p: nat, d: nat)
    requires Unbordered(pat) && 1 <= d < |pat| && p + |pat| <= |s| && s[p + d] == pat[0]
    ensures !OccursAt(s, pat, p)
  {
    assert s[p..p + |pat|][d] == s[p + d];
  }

  /** Reads a page made of a fixed `head`, a variable part ended by the first `close`,
      a fixed `mid` that starts with `close`, a variable body and a fixed `tail`. */
  function SplitFrame(page: string, head: string, close: string, mid: string, tail: string)
    : Option<(string, string)>
  {
    if !StartsWith(page, head) then None
    else
      var rest := page[|head|..];
      match IndexOf(rest, close)
      case None => None
      case Some(i) =>
        var after := rest[i..];
        if StartsWith(after, mid) && |mid| + |tail| <= |after| && EndsWith(after, tail)
        then Some((rest[..i], after[|mid|..|after| - |tail|]))
        else None
  }

  /** A framed page is read back as its two variable parts, provided the first of them
      does not itself contain `close`. */
  lemma SplitFrameRoundTrip(head: string, x: string, close: string, mid: string, y: string, tail: string)
    requires Unbordered(close) && StartsWith(mid, close) && Avoids(x, close)
    ensures SplitFrame(head + x + mid + y + tail, head, close, mid, tail) == Some((x, y))
  {
    var after := mid + y + tail;
    var rest := x + after;
    Concat(head, rest);
    assert head + x + mid + y + tail == head + rest;
    assert StartsWith(after, close) by {
      assert after[..|close|] == mid[..|close|];
    }
    FirstOccurrenceAfter(x, after, close);
    Concat(x, after);
    Framed(mid, y, tail);
  }

  lemma Concat<T>(a: seq<T>, b: seq<T>)
    ensures (a + b)[..|a|] == a && (a + b)[|a|..] == b
  {
  }

  lemma Framed<T>(a: seq<T>, b: seq<T>, c: seq<T>)
    ensures (a + b + c)[..|a|] == a
    ensures (a + b + c)[|a + b + c| - |c|..] == c
    ensures (a + b + c)[|a|..|a + b + c| - |c|] == b
  {
  }

  /** `parts.join(sep)`: the parts with `sep` between neighbours; no parts give "". */
  function Join(parts: seq<string>, sep: string): string {
    if |parts| == 0 then ""
    else if |parts| == 1 then parts[0]
    else parts[0] + sep + Join(parts[1..], sep)
  }

  /** `s.split(c)`: the maximal pieces of `s` between occurrences of `c`; "" gives [""]. */
  function Split(s: string, c: char): (r: seq<string>)
    ensures |r| >= 1
    ensures forall i :: 0 <= i < |r| ==> c !in r[i]
  {
    if s == [] then [""]
    else
      var rest := Split(s[1..], c);
      if s[0] == c then [""] + rest
      else [[s[0]] + rest[0]] + rest[1..]
  }

  lemma {:induction false} SplitFirstPiece(x: string, c: char, t: string)
    requires c !in x
    ensures Split(x + [c] + t, c) == [x] + Split(t, c)
    decreases |x|
  {
    if x == [] {
      assert x + [c] + t == [c] + t;
      assert ([c] + t)[1..] == t;
    } else {
      assert (x + [c] + t)[1..] == x[1..] + [c] + t;
      SplitFirstPiece(x[1..], c, t);
      assert [x[0]] + x[1..] == x;
    }
  }

  lemma {:induction false} SplitWithoutSeparator(x: string, c: char)
    requires c !in x
    ensures Split(x, c) == [x]
    decreases |x|
  {
    if x != [] {
      SplitWithoutSeparator(x[1..], c);
      assert [x[0]] + x[1..] == x;
    }
  }

  /** Splitting a join recovers the parts when no part holds the separator. */
  lemma {:induction false} SplitJoin(parts: seq<string>, c: char)
    requires |parts| >= 1
    requires forall i :: 0 <= i < |parts| ==> c !in parts[i]
    ensures Split(Join(parts, [c]), c) == parts
    decreases |parts|
  {
    if |parts| == 1 {
      SplitWithoutSeparator(parts[0], c);
    } else {
      SplitJoin(parts[1..], c);
      SplitFirstPiece(parts[0], c, Join(parts[1..], [c]));
      assert [parts[0]] + parts[1..] == parts;
    }
  }

  lemma SliceOfPrefix<T>(a: seq<T>, big: seq<T>, lo: nat, hi: nat)
    requires |a| <= |big| && big[..|a|] == a
    requires lo <= hi <= |a|
    ensures big[lo..hi] == a[lo..hi]
  {
    assert forall k :: lo <= k < hi ==> big[k] == big[..|a|][k];
  }
}
