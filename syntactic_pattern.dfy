/**
 * SyntacticPattern.extract: find the first position where the stem of the
 * pattern's term occurs, take the words the pattern matches there, drop the
 * blacklisted ones and return every n-gram of length 1..n of what is left,
 * shortest first and, within one length, by start position.
 */
module SyntacticPatterns {
  import opened Wrappers

  /**
   * A pattern: the number of words of its term, the stem comparison
   * `stem.equals(tokens, i, stemmer)`, the pattern-specific `match(tokens, i, w)`
   * and the blacklist.
   */
  datatype SyntacticPattern = SyntacticPattern(
    termSize: nat,
    stemAt: (seq<string>, nat) -> bool,
    matchAt: (seq<string>, nat, int) -> seq<string>,
    blacklist: seq<string>)

  /** extract dereferences `match` while it is still null when no position matches. */
  datatype ExtractError = NullMatch

  /**
   * The first position k <= i < |tokens| - termSize at which the stem
   * matches, if any (the scan bound is `tokens.size() - term.size()`, exclusive).
   */
  function FirstStemFrom(sp: SyntacticPattern, tokens: seq<string>, k: nat): (r: Option<nat>)
    ensures r.Some? ==> k <= r.value < |tokens| - sp.termSize && sp.stemAt(tokens, r.value)
    ensures r.Some? ==> forall j :: k <= j < r.value ==> !sp.stemAt(tokens, j)
    ensures r.None? ==> forall j :: k <= j < |tokens| - sp.termSize ==> !sp.stemAt(tokens, j)
    decreases |tokens| - k
  {
    if k >= |tokens| - sp.termSize then None
    else if sp.stemAt(tokens, k) then Some(k)
    else FirstStemFrom(sp, tokens, k + 1)
  }

  function FirstStem(sp: SyntacticPattern, tokens: seq<string>): Option<nat>
  {
    FirstStemFrom(sp, tokens, 0)
  }

  /** `removeIf(x -> binarySearch(blacklist, x) >= 0)`, with the search read as membership. */
  function Without(s: seq<string>, blacklist: seq<string>): (r: seq<string>)
    ensures |r| <= |s|
  {
    if s == [] then []
    else (if s[0] in blacklist then [] else [s[0]]) + Without(s[1..], blacklist)
  }

  /** Exactly the words that are not blacklisted remain. */
  lemma {:induction false} WithoutMembers(s: seq<string>, blacklist: seq<string>)
    ensures forall x :: x in Without(s, blacklist) <==> x in s && x !in blacklist
  {
    if s != [] {
      WithoutMembers(s[1..], blacklist);
      assert s == [s[0]] + s[1..];
    }
  }

  /** Removal works word by word and keeps the order of the words it keeps. */
  lemma {:induction false} WithoutAppend(a: seq<string>, b: seq<string>, blacklist: seq<string>)
    ensures Without(a + b, blacklist) == Without(a, blacklist) + Without(b, blacklist)
  {
    if a == [] {
      assert a + b == b;
    } else {
      assert (a + b)[0] == a[0] && (a + b)[1..] == a[1..] + b;
      WithoutAppend(a[1..], b, blacklist);
    }
  }

  /** Removing twice removes nothing more. */
  lemma {:induction false} WithoutIdempotent(s: seq<string>, blacklist: seq<string>)
    ensures Without(Without(s, blacklist), blacklist) == Without(s, blacklist)
  {
    if s != [] {
      WithoutIdempotent(s[1..], blacklist);
      var head := if s[0] in blacklist then [] else [s[0]];
      WithoutAppend(head, Without(s[1..], blacklist), blacklist);
      if s[0] !in blacklist {
        assert Without(head, blacklist) == head by {
          assert head[1..] == [];
        }
      }
    }
  }

  /** The windows of length len of m, by start: `m.subList(j, j + len)` for 0 <= j < |m| - len + 1. */
  function WindowsOfLength(m: seq<string>, len: nat): (r: seq<seq<string>>)
    ensures |r| == if |m| >= len then |m| - len + 1 else 0
  {
    var count := if |m| >= len then |m| - len + 1 else 0;
    seq(count, j requires 0 <= j < count => m[j..j + len])
  }

  /** Reference definition of extract's output: the windows of length 1, then 2, ..., then n. */
  function AllGrams(m: seq<string>, n: int): seq<seq<string>>
    decreases n
  {
    if n <= 0 then [] else AllGrams(m, n - 1) + WindowsOfLength(m, n)
  }

  /**
   * extract(tokens, n).  The result is the n-grams of the filtered match at
   * the first stem position, or the error of dereferencing a null match.
   */
  method Extract(sp: SyntacticPattern, tokens: seq<string>, n: int)
    returns (r: Result<seq<seq<string>>, ExtractError>)
    ensures FirstStem(sp, tokens).None? ==> r == Failure(NullMatch)
    ensures FirstStem(sp, tokens).Some? ==>
              r == Success(AllGrams(Without(sp.matchAt(tokens, FirstStem(sp, tokens).value, n), sp.blacklist), n))
  {
    var found: Option<seq<string>> := None;
    var i: nat := 0;
    var s := |tokens| - sp.termSize;
    while i < s && found.None?
      invariant found.None? ==> FirstStem(sp, tokens) == FirstStemFrom(sp, tokens, i)
      invariant found.Some? ==>
                  1 <= i && FirstStem(sp, tokens) == Some(i - 1) && found.value == sp.matchAt(tokens, i - 1, n)
      decreases s - i, if found.None? then 1 else 0
    {
      if sp.stemAt(tokens, i) {
        found := Some(sp.matchAt(tokens, i, n));
      }
      i := i + 1;
    }
    if found.None? {
      return Failure(NullMatch);
    }
    var kept := Without(found.value, sp.blacklist);
    var rv := Grams(kept, n);
    r := Success(rv);
  }

  /** The two nested loops of extract that collect the n-grams of the filtered match. */
  method Grams(m: seq<string>, n: int) returns (rv: seq<seq<string>>)
    ensures rv == AllGrams(m, n)
  {
    rv := [];
    var len := 1;
    while len <= n
      invariant 1 <= len <= if n >= 1 then n + 1 else 1
      invariant rv == AllGrams(m, len - 1)
    {
      var j := 0;
      var t := |m| - len + 1;
      while j < t
        invariant 0 <= j <= |WindowsOfLength(m, len)|
        invariant rv == AllGrams(m, len - 1) + WindowsOfLength(m, len)[..j]
      {
        assert WindowsOfLength(m, len)[..j + 1] == WindowsOfLength(m, len)[..j] + [m[j..j + len]];
        rv := rv + [m[j..j + len]];
        j := j + 1;
      }
      assert WindowsOfLength(m, len)[..j] == WindowsOfLength(m, len);
      len := len + 1;
    }
  }

  /** The number of n-grams: the sum over i = 1..n of max(0, |m| - i + 1), in closed form. */
  lemma {:induction false} AllGramsLength(m: seq<string>, n: int)
    ensures n <= 0 ==> |AllGrams(m, n)| == 0
    ensures 0 <= n <= |m| ==> 2 * |AllGrams(m, n)| == n * (2 * |m| - n + 1)
    ensures n >= |m| ==> 2 * |AllGrams(m, n)| == |m| * (|m| + 1)
    decreases n
  {
    if n > 0 {
      AllGramsLength(m, n - 1);
      if n <= |m| {
        assert n * (2 * |m| - n + 1) == (n - 1) * (2 * |m| - (n - 1) + 1) + 2 * (|m| - n + 1);
      }
    }
  }

  /** Every n-gram is a contiguous run of m of length 1..n. */
  lemma {:induction false} AllGramsSound(m: seq<string>, n: int, g: seq<string>)
    requires g in AllGrams(m, n)
    ensures 1 <= |g| <= n
    ensures exists j, k :: 0 <= j <= k <= |m| && g == m[j..k]
    decreases n
  {
    if g in AllGrams(m, n - 1) {
      AllGramsSound(m, n - 1, g);
    } else {
      var w := WindowsOfLength(m, n);
      var j :| 0 <= j < |w| && w[j] == g;
      assert g == m[j..j + n] && j + n <= |m|;
    }
  }

  /** Every contiguous run of m of length 1..n is among the n-grams. */
  lemma {:induction false} AllGramsComplete(m: seq<string>, n: int, j: nat, len: nat)
    requires 1 <= len <= n && j + len <= |m|
    ensures m[j..j + len] in AllGrams(m, n)
    decreases n
  {
    if len < n {
      AllGramsComplete(m, n - 1, j, len);
    } else {
      assert WindowsOfLength(m, n)[j] == m[j..j + len];
    }
  }

  /** The n-grams come shortest first. */
  lemma {:induction false} AllGramsByLength(m: seq<string>, n: int)
    ensures forall a, b :: 0 <= a <= b < |AllGrams(m, n)| ==> |AllGrams(m, n)[a]| <= |AllGrams(m, n)[b]|
    decreases n
  {
    if n > 0 {
      AllGramsByLength(m, n - 1);
      var prev := AllGrams(m, n - 1);
      var r := AllGrams(m, n);
      forall a, b | 0 <= a <= b < |r|
        ensures |r[a]| <= |r[b]|
      {
        if b >= |prev| {
          assert |r[b]| == n;
          if a < |prev| {
            AllGramsSound(m, n - 1, prev[a]);
          }
        }
      }
    }
  }

  /** The n-grams up to length len come first. */
  lemma {:induction false} AllGramsPrefix(m: seq<string>, len: int, n: int)
    requires len <= n
    ensures |AllGrams(m, len)| <= |AllGrams(m, n)|
    ensures AllGrams(m, n)[..|AllGrams(m, len)|] == AllGrams(m, len)
    decreases n - len
  {
    if len < n {
      AllGramsPrefix(m, len, n - 1);
      if n > 0 {
        var prev := AllGrams(m, n - 1);
        assert AllGrams(m, n)[..|prev|] == prev;
      }
    }
  }

  /**
   * Position |AllGrams(m, len - 1)| + j holds the n-gram of length len
   * starting at word j: by length, then by start.
   */
  lemma AllGramsAt(m: seq<string>, n: int, len: int, j: nat)
    requires 1 <= len <= n && j + len <= |m|
    ensures |AllGrams(m, len - 1)| + j < |AllGrams(m, n)|
    ensures AllGrams(m, n)[|AllGrams(m, len - 1)| + j] == m[j..j + len]
  {
    AllGramsPrefix(m, len, n);
    var upTo := AllGrams(m, len);
    assert upTo[|AllGrams(m, len - 1)| + j] == WindowsOfLength(m, len)[j];
    assert AllGrams(m, n)[|AllGrams(m, len - 1)| + j] == upTo[|AllGrams(m, len - 1)| + j];
  }
}
