/** The two list comprehensions of `main` that pick packages out of the `.apkm` archive listing. */
module Packages {
  import opened Text

  /** `[x for x in xs if p(x)]` */
  function Filter<T>(xs: seq<T>, p: T -> bool): (r: seq<T>)
    ensures |r| <= |xs|
    ensures forall k :: 0 <= k < |r| ==> p(r[k])
    decreases |xs|
  {
    if xs == [] then [] else (if p(xs[0]) then [xs[0]] else []) + Filter(xs[1..], p)
  }

  /** `a` is `b` with some entries left out, the rest in their order. */
  predicate IsSubsequence<T(==)>(a: seq<T>, b: seq<T>)
    decreases |b|
  {
    if a == [] then true
    else if b == [] then false
    else if a[0] == b[0] then IsSubsequence(a[1..], b[1..])
    else IsSubsequence(a, b[1..])
  }

  predicate IsApk(name: string) {
    EndsWith(name, ".apk")
  }

  predicate IsSplitConfig(name: string) {
    StartsWith(name, "split_config.")
  }

  /** Both filters of `main` at once. */
  predicate IsSplitConfigApk(name: string) {
    IsApk(name) && IsSplitConfig(name)
  }

  /** `apk_files`: the archive entries whose names end in `.apk`. */
  function ApkFiles(files: seq<string>): seq<string> {
    Filter(files, IsApk)
  }

  /** `split_config_packages`: the APK entries whose names start with `split_config.`. */
  function SplitConfigPackages(apkFiles: seq<string>): seq<string> {
    Filter(apkFiles, IsSplitConfig)
  }

  /** The filter keeps every entry that passes, as often as it occurs, and nothing else. */
  lemma {:induction false} FilterCounts<T>(xs: seq<T>, p: T -> bool, x: T)
    ensures multiset(Filter(xs, p))[x] == if p(x) then multiset(xs)[x] else 0
    decreases |xs|
  {
    if xs != [] {
      FilterCounts(xs[1..], p, x);
      assert xs == [xs[0]] + xs[1..];
      assert multiset(xs) == multiset([xs[0]]) + multiset(xs[1..]);
    }
  }

  /** An entry is in the filtered list exactly when it is in the list and passes. */
  lemma FilterMembers<T>(xs: seq<T>, p: T -> bool, x: T)
    ensures x in Filter(xs, p) <==> x in xs && p(x)
  {
  }

  /** Dropping the first entry of the longer list keeps a subsequence a subsequence. */
  lemma {:induction false} SubsequenceOfTail<T>(a: seq<T>, b: seq<T>)
    requires |b| > 0 && IsSubsequence(a, b[1..])
    ensures IsSubsequence(a, b)
    decreases |b|, 0
  {
    if a != [] && a[0] == b[0] {
      DropHead(a, b[1..]);
    }
  }

  /** Dropping the first entry of a subsequence keeps it a subsequence. */
  lemma {:induction false} DropHead<T>(a: seq<T>, c: seq<T>)
    requires |a| > 0 && IsSubsequence(a, c)
    ensures IsSubsequence(a[1..], c)
    decreases |c|, 1
  {
    if a[0] != c[0] {
      DropHead(a, c[1..]);
    }
    SubsequenceOfTail(a[1..], c);
  }

  /** Filtering keeps archive order: the result is a subsequence of the input. */
  lemma {:induction false} FilterIsSubsequence<T>(xs: seq<T>, p: T -> bool)
    ensures IsSubsequence(Filter(xs, p), xs)
    decreases |xs|
  {
    if xs != [] {
      FilterIsSubsequence(xs[1..], p);
      var r := Filter(xs[1..], p);
      if p(xs[0]) {
        assert Filter(xs, p) == [xs[0]] + r;
        assert ([xs[0]] + r)[1..] == r;
      } else {
        assert Filter(xs, p) == r;
        SubsequenceOfTail(r, xs);
      }
    }
  }

  /** Filtering twice is filtering once by both tests. */
  lemma {:induction false} FilterTwice<T>(xs: seq<T>, p: T -> bool, q: T -> bool, both: T -> bool)
    requires forall x :: both(x) == (p(x) && q(x))
    ensures Filter(Filter(xs, p), q) == Filter(xs, both)
    decreases |xs|
  {
    if xs != [] {
      FilterTwice(xs[1..], p, q, both);
      var head := if p(xs[0]) then [xs[0]] else [];
      assert Filter(xs, p) == head + Filter(xs[1..], p);
      FilterAppend(head, Filter(xs[1..], p), q);
      if p(xs[0]) {
        assert [xs[0]][1..] == [];
      }
    }
  }

  /** The filter of a concatenation is the concatenation of the filters. */
  lemma {:induction false} FilterAppend<T>(a: seq<T>, b: seq<T>, p: T -> bool)
    ensures Filter(a + b, p) == Filter(a, p) + Filter(b, p)
    decreases |a|
  {
    if a == [] {
      assert a + b == b;
    } else {
      FilterAppend(a[1..], b, p);
      assert (a + b)[0] == a[0] && (a + b)[1..] == a[1..] + b;
    }
  }

  /**
   * The split config packages are exactly the archive entries that end in `.apk` and start with
   * `split_config.`, each as often as in the archive, in archive order, and a subsequence of the
   * APK list.
   */
  lemma SplitConfigPackagesExact(files: seq<string>, x: string)
    ensures var apks := ApkFiles(files);
      var splits := SplitConfigPackages(apks);
      && (x in apks <==> x in files && IsApk(x))
      && (x in splits <==> x in files && IsApk(x) && IsSplitConfig(x))
      && multiset(splits)[x] == (if IsApk(x) && IsSplitConfig(x) then multiset(files)[x] else 0)
      && IsSubsequence(splits, apks)
      && IsSubsequence(apks, files)
      && splits == Filter(files, IsSplitConfigApk)
  {
    var apks := ApkFiles(files);
    FilterMembers(files, IsApk, x);
    FilterMembers(apks, IsSplitConfig, x);
    FilterCounts(files, IsApk, x);
    FilterCounts(apks, IsSplitConfig, x);
    FilterIsSubsequence(apks, IsSplitConfig);
    FilterIsSubsequence(files, IsApk);
    FilterTwice(files, IsApk, IsSplitConfig, IsSplitConfigApk);
  }

  /** A typical `.apkm` listing. */
  lemma ListingExample()
    ensures ApkFiles(["info.json", "base.apk", "split_config.arm64_v8a.apk", "icon.png", "split_config.en.apk"])
      == ["base.apk", "split_config.arm64_v8a.apk", "split_config.en.apk"]
    ensures SplitConfigPackages(["base.apk", "split_config.arm64_v8a.apk", "split_config.en.apk"])
      == ["split_config.arm64_v8a.apk", "split_config.en.apk"]
  {
  }
}
