/**
 Slices of sequences under update and concatenation.
 */
module SeqSlices {
  /** An update outside a slice leaves it alone. */
  lemma UpdateOutside<T>(s: seq<T>, i: nat, x: T, lo: nat, hi: nat)
    requires i < |s| && lo <= hi <= |s| && (i < lo || hi <= i)
    ensures s[i := x][lo..hi] == s[lo..hi]
  {
  }

  /** An update right behind a slice makes it longer by one. */
  lemma UpdateBehind<T>(s: seq<T>, lo: nat, hi: nat, x: T)
    requires lo <= hi < |s|
    ensures s[hi := x][lo..hi + 1] == s[lo..hi] + [x]
  {
  }

  /** Prefixes of equal slices are equal. */
  lemma ShorterSlice<T>(s: seq<T>, t: seq<T>, lo: nat, hi: nat, mid: nat)
    requires lo <= mid <= hi <= |s| && hi <= |t| && s[lo..hi] == t[lo..hi]
    ensures s[lo..mid] == t[lo..mid] && s[mid..hi] == t[mid..hi]
  {
    assert s[lo..hi][..mid - lo] == s[lo..mid] && t[lo..hi][..mid - lo] == t[lo..mid];
    assert s[lo..hi][mid - lo..] == s[mid..hi] && t[lo..hi][mid - lo..] == t[mid..hi];
  }

  lemma InitAndLast<T>(s: seq<T>)
    requires s != []
    ensures s == s[..|s| - 1] + [s[|s| - 1]]
  {
  }

  lemma CountOfNext<T>(s: seq<T>, x: T, v: T)
    ensures multiset(s + [x])[v] == multiset(s)[v] + if v == x then 1 else 0
  {
  }

  /** Leaving out one element takes it off the multiset. */
  lemma WithoutOne<T>(all: seq<T>, less: seq<T>, p: nat)
    requires p < |all| == |less| + 1
    requires forall q :: 0 <= q < |less| ==> less[q] == all[if q < p then q else q + 1]
    ensures multiset(all) == multiset(less) + multiset{all[p]}
  {
    assert all == all[..p] + [all[p]] + all[p + 1..];
    assert less == all[..p] + all[p + 1..];
  }

  lemma CountOfParts<T>(s: seq<T>, lo: nat, hi: nat, x: T)
    requires lo <= hi <= |s|
    ensures multiset(s)[x] == multiset(s[..lo])[x] + multiset(s[lo..hi])[x] + multiset(s[hi..])[x]
  {
    assert s == s[..lo] + s[lo..hi] + s[hi..];
  }
}
