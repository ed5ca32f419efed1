/**
 * The plain-text tokenizer.  A text is cut at the word boundaries a
 * `BreakIterator` reports; each piece between two boundaries is stripped of
 * "'s" and of every run of characters other than letters and '-', and the
 * non-empty results are the tokens.  Tokens are delivered by two iterators:
 * one word at a time, or as the growing prefixes of a window of n words that
 * slides one word at a time.
 *
 * The locale-dependent parts are left abstract: `normalize` (lower-casing,
 * canonical decomposition and removal of combining marks), `strip` (the
 * regular-expression replacement) and `wordBreaks` (the boundaries the word
 * BreakIterator reports for a text, `first()` followed by every `next()`).
 */
module Tokenizer {
  import opened Wrappers

  /** BreakIterator.DONE */
  const DONE: int := -1

  datatype PlainTextTokenizer = PlainTextTokenizer(
    normalize: string -> string,
    strip: string -> string,
    wordBreaks: string -> seq<nat>)

  /** Boundaries a break iterator may report for a text: at least one, in order, within the text. */
  predicate ValidBounds(input: string, bounds: seq<nat>)
  {
    && |bounds| >= 1
    && (forall j :: 0 <= j < |bounds| ==> bounds[j] <= |input|)
    && (forall i, j :: 0 <= i <= j < |bounds| ==> bounds[i] <= bounds[j])
  }

  ghost predicate WellFormed(tk: PlainTextTokenizer)
  {
    forall s :: ValidBounds(s, tk.wordBreaks(s))
  }

  /** The pieces of the text between consecutive boundaries, from the piece ending at bounds[from]. */
  function Segments(input: string, bounds: seq<nat>, from: nat): (r: seq<string>)
    requires ValidBounds(input, bounds) && 1 <= from <= |bounds|
    ensures |r| == |bounds| - from
    decreases |bounds| - from
  {
    if from == |bounds| then []
    else [input[bounds[from - 1]..bounds[from]]] + Segments(input, bounds, from + 1)
  }

  /** The non-empty stripped pieces, in order: the tokens the pieces yield. */
  function Words(strip: string -> string, segs: seq<string>): (r: seq<string>)
    ensures |r| <= |segs|
  {
    if segs == [] then []
    else (if strip(segs[0]) == [] then [] else [strip(segs[0])]) + Words(strip, segs[1..])
  }

  /** No token is empty. */
  lemma {:induction false} WordsNonEmpty(strip: string -> string, segs: seq<string>)
    ensures forall t :: 0 <= t < |Words(strip, segs)| ==> Words(strip, segs)[t] != []
  {
    if segs != [] {
      WordsNonEmpty(strip, segs[1..]);
    }
  }

  /** A word is a token exactly when it is the non-empty stripped form of some piece. */
  lemma {:induction false} WordsMembers(strip: string -> string, segs: seq<string>, w: string)
    ensures w in Words(strip, segs) <==> w != [] && exists s :: s in segs && strip(s) == w
  {
    if segs != [] {
      WordsMembers(strip, segs[1..], w);
      if w != [] && strip(segs[0]) != w {
        if exists s :: s in segs && strip(s) == w {
          var s :| s in segs && strip(s) == w;
          assert s in segs[1..];
        }
      }
    }
  }

  /** Stripping a sequence of pieces piece by piece. */
  lemma {:induction false} WordsAppend(strip: string -> string, a: seq<string>, b: seq<string>)
    ensures Words(strip, a + b) == Words(strip, a) + Words(strip, b)
  {
    if a == [] {
      assert a + b == b;
    } else {
      assert (a + b)[0] == a[0];
      assert (a + b)[1..] == a[1..] + b;
      WordsAppend(strip, a[1..], b);
    }
  }

  /** The tokens of an already normalised text. */
  ghost function TokensOf(tk: PlainTextTokenizer, text: string): (r: seq<string>)
    requires WellFormed(tk)
  {
    Words(tk.strip, Segments(text, tk.wordBreaks(text), 1))
  }

  /**
   * The state shared by an iterator and findNext: the break iterator's
   * boundaries, the index `cursor` of the boundary `end` (DONE once they are
   * exhausted), the boundary `start` before it, and the last token found.
   */
  class IteratorParameters {
    const bounds: seq<nat>
    var cursor: nat
    var start: int
    var end: int
    var token: Option<string>

    ghost predicate Valid(input: string)
      reads this
    {
      && ValidBounds(input, bounds)
      && 1 <= cursor <= |bounds|
      && start == bounds[cursor - 1]
      && end == (if cursor < |bounds| then bounds[cursor] else DONE)
    }

    /** `it.setText(input); start = it.first(); end = it.next();` */
    constructor (input: string, bounds: seq<nat>)
      requires ValidBounds(input, bounds)
      ensures Valid(input) && this.bounds == bounds
      ensures cursor == 1 && token == None
    {
      this.bounds := bounds;
      cursor := 1;
      start := bounds[0];
      end := if 1 < |bounds| then bounds[1] else DONE;
      token := None;
    }

    /** The pieces not yet examined, from [start, end) on. */
    ghost function Remaining(input: string): seq<string>
      reads this
      requires Valid(input)
    {
      Segments(input, bounds, cursor)
    }

    /** `start = end; end = it.next();`: the piece [start, end) is consumed. */
    method Advance(input: string)
      requires Valid(input) && end != DONE
      modifies this
      ensures Valid(input) && token == old(token)
      ensures old(Remaining(input)) == [input[old(start)..old(end)]] + Remaining(input)
    {
      start := end;
      cursor := cursor + 1;
      end := if cursor < |bounds| then bounds[cursor] else DONE;
    }
  }

  /**
   * findNext: examines pieces from [start, end) on, advancing start to end
   * and end to the next boundary after each one, until a piece strips to a
   * non-empty token; token is that token, or None when the boundaries ran out.
   */
  method FindNext(tk: PlainTextTokenizer, input: string, p: IteratorParameters)
    requires p.Valid(input)
    modifies p
    ensures p.Valid(input)
    ensures Words(tk.strip, old(p.Remaining(input)))
         == (if p.token.Some? then [p.token.value] else []) + Words(tk.strip, p.Remaining(input))
    ensures p.token.None? ==> p.end == DONE && p.Remaining(input) == []
  {
    ghost var target := Words(tk.strip, p.Remaining(input));
    p.token := None;
    var done := false;
    while p.end != DONE && !done
      invariant p.Valid(input)
      invariant done <==> p.token.Some?
      invariant target == (if done then [p.token.value] else []) + Words(tk.strip, p.Remaining(input))
      decreases |p.bounds| - p.cursor
    {
      var candidate := input[p.start..p.end];
      var sb := tk.strip(candidate);
      p.Advance(input);
      WordsCons(tk.strip, candidate, p.Remaining(input));
      if |sb| > 0 {
        done := true;
        p.token := Some(sb);
      }
    }
  }

  lemma WordsCons(strip: string -> string, c: string, rest: seq<string>)
    ensures Words(strip, [c] + rest) == (if strip(c) == [] then [] else [strip(c)]) + Words(strip, rest)
  {
    assert ([c] + rest)[0] == c && ([c] + rest)[1..] == rest;
  }

  /** TextTokenizerIteratorString: one token per call of next(). */
  class TextTokenizerIteratorString {
    const tk: PlainTextTokenizer
    const input: string
    const p: IteratorParameters
    var hasNext: bool

    ghost predicate Valid()
      reads this, p
    {
      && p.Valid(input)
      && (hasNext <==> p.token.Some?)
      && (p.token.None? ==> p.end == DONE)
    }

    /** The tokens next() will still return, in order. */
    ghost function Pending(): seq<string>
      reads this, p
      requires Valid()
    {
      (match p.token case Some(t) => [t] case None => []) + Words(tk.strip, p.Remaining(input))
    }

    constructor (tk: PlainTextTokenizer, input: string)
      requires WellFormed(tk)
      ensures Valid() && fresh(p)
      ensures this.tk == tk && this.input == input
      ensures Pending() == TokensOf(tk, input)
      ensures hasNext <==> TokensOf(tk, input) != []
    {
      var q := new IteratorParameters(input, tk.wordBreaks(input));
      FindNext(tk, input, q);
      this.tk := tk;
      this.input := input;
      p := q;
      hasNext := q.token.Some?;
      new;
      assert p.token.None? ==> p.Remaining(input) == [];
    }

    lemma HasNextIffPending()
      requires Valid()
      ensures hasNext <==> Pending() != []
    {
      if !hasNext {
        assert p.Remaining(input) == [];
      }
    }

    /** next(): the current token, then findNext for the one after it. */
    method Next() returns (rv: Option<string>)
      requires Valid()
      modifies this, p
      ensures Valid()
      ensures old(Pending()) == (match rv case Some(t) => [t] + Pending() case None => [])
      ensures rv.None? ==> Pending() == [] && !hasNext
      ensures hasNext <==> Pending() != []
    {
      rv := p.token;
      FindNext(tk, input, p);
      if p.token.None? {
        hasNext := false;
      }
      HasNextIffPending();
      if rv.None? {
        assert old(p.Remaining(input)) == [];
      }
    }
  }

  /** tokenize(input): every token of the normalised input, in order. */
  method Tokenize(tk: PlainTextTokenizer, input: string) returns (rv: seq<string>)
    requires WellFormed(tk)
    ensures rv == TokensOf(tk, tk.normalize(input))
  {
    var it := new TextTokenizerIteratorString(tk, tk.normalize(input));
    it.HasNextIffPending();
    rv := [];
    while it.hasNext
      invariant it.Valid()
      invariant rv + it.Pending() == TokensOf(tk, tk.normalize(input))
      invariant it.hasNext <==> it.Pending() != []
      decreases |it.Pending()|
    {
      var t := it.Next();
      rv := rv + [t.value];
    }
  }

  // ---------------------------------------------------------------------------
  // n-grams
  // ---------------------------------------------------------------------------

  /** The prefixes of the window of lengths i+1 .. |w|, shortest first. */
  function PrefixesFrom(w: seq<string>, i: nat): (r: seq<Option<seq<string>>>)
    ensures |r| == if i >= |w| then 0 else |w| - i
    decreases |w| - i
  {
    if i >= |w| then [] else [Some(w[..i + 1])] + PrefixesFrom(w, i + 1)
  }

  /**
   * What the n-gram iterator yields from a full window w once its prefixes
   * are spent and the tokens rest are still unread: each slide drops the
   * head of the window and appends the next token, and yields the prefixes
   * of the new window; when no token is left, next() yields None.
   */
  function Slide(w: seq<string>, rest: seq<string>): seq<Option<seq<string>>>
    decreases |rest|
  {
    if rest == [] then [None]
    else if w == [] then []
    else
      var w' := w[1..] + [rest[0]];
      PrefixesFrom(w', 0) + Slide(w', rest[1..])
  }

  lemma SlideNonEmpty(w: seq<string>, rest: seq<string>)
    requires w != [] || rest == []
    ensures Slide(w, rest) != []
  {
    if rest != [] {
      var w' := w[1..] + [rest[0]];
      assert |PrefixesFrom(w', 0)| == |w'|;
    }
  }

  /** Reference definition: the prefixes of every window of n consecutive tokens, window by window. */
  function Windows(tokens: seq<string>, n: nat): seq<Option<seq<string>>>
  {
    if |tokens| < n || tokens == [] then []
    else PrefixesFrom(tokens[..n], 0) + Windows(tokens[1..], n)
  }

  /** Reference definition of the output of tokenize(input, n): nothing when fewer than n tokens, else the windows then None. */
  function NGramOutput(tokens: seq<string>, n: nat): seq<Option<seq<string>>>
  {
    if |tokens| < n then [] else Windows(tokens, n) + [None]
  }

  /** Sliding through the unread tokens yields the windows of the whole stream. */
  lemma {:induction false} SlideIsWindows(w: seq<string>, rest: seq<string>, n: nat)
    requires |w| == n && n >= 1
    ensures PrefixesFrom(w, 0) + Slide(w, rest) == Windows(w + rest, n) + [None]
    decreases |rest|
  {
    var t := w + rest;
    assert t[..n] == w;
    if rest == [] {
      assert t[1..] == w[1..];
    } else {
      var w' := w[1..] + [rest[0]];
      assert t[1..] == w' + rest[1..];
      SlideIsWindows(w', rest[1..], n);
    }
  }

  /** The windows of m >= n tokens: (m - n + 1) windows of n prefixes each. */
  lemma {:induction false} WindowsLength(tokens: seq<string>, n: nat)
    requires n >= 1 && |tokens| >= n - 1
    ensures |Windows(tokens, n)| == (|tokens| - n + 1) * n
  {
    if |tokens| >= n {
      WindowsLength(tokens[1..], n);
      assert (|tokens| - n + 1) * n == (|tokens| - 1 - n + 1) * n + n;
    }
  }

  /**
   * Element w*n + j of the windows is the n-gram of length j+1 starting at
   * token w: the n-grams are ordered by start, then by length.
   */
  lemma {:induction false} WindowsAt(tokens: seq<string>, n: nat, w: nat, j: nat)
    requires n >= 1 && w + n <= |tokens| && j < n
    ensures w * n + j < |Windows(tokens, n)|
    ensures Windows(tokens, n)[w * n + j] == Some(tokens[w..w + j + 1])
  {
    var head := PrefixesFrom(tokens[..n], 0);
    var tail := Windows(tokens[1..], n);
    assert Windows(tokens, n) == head + tail;
    if w == 0 {
      PrefixesFromAt(tokens[..n], 0, j);
      assert tokens[..n][..j + 1] == tokens[0..j + 1];
    } else {
      var k := (w - 1) * n + j;
      assert w * n + j == n + k;
      WindowsAt(tokens[1..], n, w - 1, j);
      assert tokens[1..][w - 1..w - 1 + j + 1] == tokens[w..w + j + 1];
    }
  }

  lemma {:induction false} PrefixesFromAt(w: seq<string>, i: nat, j: nat)
    requires i <= j < |w|
    ensures PrefixesFrom(w, i)[j - i] == Some(w[..j + 1])
    decreases j - i
  {
    if i < j {
      PrefixesFromAt(w, i + 1, j);
    }
  }

  /** With at least n tokens the output ends with exactly one None, and holds no other. */
  lemma NGramOutputEnds(tokens: seq<string>, n: nat)
    requires n >= 1 && |tokens| >= n
    ensures |NGramOutput(tokens, n)| == (|tokens| - n + 1) * n + 1
    ensures NGramOutput(tokens, n)[|NGramOutput(tokens, n)| - 1] == None
    ensures forall t :: 0 <= t < |NGramOutput(tokens, n)| - 1 ==> NGramOutput(tokens, n)[t].Some?
  {
    WindowsLength(tokens, n);
    WindowsAllSome(tokens, n);
  }

  lemma {:induction false} WindowsAllSome(tokens: seq<string>, n: nat)
    ensures forall t :: 0 <= t < |Windows(tokens, n)| ==> Windows(tokens, n)[t].Some?
  {
    if !(|tokens| < n || tokens == []) {
      WindowsAllSome(tokens[1..], n);
      PrefixesAllSome(tokens[..n], 0);
    }
  }

  lemma {:induction false} PrefixesAllSome(w: seq<string>, i: nat)
    ensures forall t :: 0 <= t < |PrefixesFrom(w, i)| ==> PrefixesFrom(w, i)[t].Some?
    decreases |w| - i
  {
    if i < |w| {
      PrefixesAllSome(w, i + 1);
    }
  }

  /** Why tokenize(input, n) throws. */
  datatype NGramError =
    | NegativeCapacity   // new ArrayList<>(n) with n < 0
    | RemoveFromEmpty    // buffer.remove(0) on the empty buffer of a 0-gram iterator

  /** The constructor's loop: findNext up to n times, keeping each token found. */
  method ReadWindow(tk: PlainTextTokenizer, input: string, q: IteratorParameters, n: nat)
    returns (buf: seq<string>, more: bool)
    requires q.Valid(input)
    modifies q
    ensures q.Valid(input)
    ensures more <==> |Words(tk.strip, old(q.Remaining(input)))| >= n
    ensures more ==> buf + Words(tk.strip, q.Remaining(input)) == Words(tk.strip, old(q.Remaining(input)))
    ensures more ==> |buf| == n
  {
    ghost var tokens := Words(tk.strip, q.Remaining(input));
    buf := [];
    more := true;
    var i := 0;
    while i < n && more
      invariant q.Valid(input) && 0 <= i <= n
      invariant more ==> |buf| == i
      invariant more ==> buf + Words(tk.strip, q.Remaining(input)) == tokens
      invariant !more ==> |tokens| < n
    {
      ghost var before := Words(tk.strip, q.Remaining(input));
      FindNext(tk, input, q);
      if q.token.Some? {
        AppendStep(buf, q.token.value, Words(tk.strip, q.Remaining(input)), before, tokens);
        buf := buf + [q.token.value];
      } else {
        EmptyAppend(buf, before, tokens);
        more := false;
      }
      i := i + 1;
    }
  }

  /** The state the constructor leaves yields the whole output. */
  lemma StartIsOutput(w: seq<string>, rest: seq<string>, tokens: seq<string>, n: nat)
    requires |w| == n && w + rest == tokens
    ensures n > 0 || tokens == [] ==> PrefixesFrom(w, 0) + Slide(w, rest) == NGramOutput(tokens, n)
  {
    if n >= 1 {
      SlideIsWindows(w, rest, n);
    }
  }

  /**
   * TextTokenizerIteratorNGram: a buffer of n tokens, the length idx of the
   * last prefix returned, and hasNext, which stays true until a call of
   * next() finds no token to slide in and returns None.
   */
  class TextTokenizerIteratorNGram {
    const tk: PlainTextTokenizer
    const input: string
    const p: IteratorParameters
    const n: nat
    var buffer: seq<string>
    var hasNext: bool
    var idx: nat

    ghost predicate Valid()
      reads this, p
    {
      && p.Valid(input)
      && idx <= n
      && (hasNext ==> |buffer| == n)
    }

    /** The tokens not yet read into the buffer. */
    ghost function Rest(): seq<string>
      reads this, p
      requires Valid()
    {
      Words(tk.strip, p.Remaining(input))
    }

    /** What the calls of next() will return while hasNext holds. */
    ghost function Pending(): seq<Option<seq<string>>>
      reads this, p
      requires Valid()
    {
      if hasNext then PrefixesFrom(buffer, idx) + Slide(buffer, Rest()) else []
    }

    /** Reads the first n tokens; fewer than n means hasNext is false from the start. */
    constructor (tk: PlainTextTokenizer, input: string, n: nat)
      requires WellFormed(tk)
      ensures Valid() && fresh(p)
      ensures this.tk == tk && this.input == input && this.n == n && idx == 0
      ensures hasNext <==> |TokensOf(tk, input)| >= n
      ensures hasNext ==> buffer == TokensOf(tk, input)[..n] && Rest() == TokensOf(tk, input)[n..]
      ensures n > 0 || TokensOf(tk, input) == [] ==> Pending() == NGramOutput(TokensOf(tk, input), n)
    {
      var q := new IteratorParameters(input, tk.wordBreaks(input));
      var buf, more := ReadWindow(tk, input, q, n);
      this.tk := tk;
      this.input := input;
      this.n := n;
      p := q;
      buffer := buf;
      hasNext := more;
      idx := 0;
      new;
      if hasNext {
        StartIsOutput(buffer, Rest(), TokensOf(tk, input), n);
      }
    }

    lemma HasNextIffPending()
      requires Valid() && (n > 0 || Rest() == [])
      ensures hasNext <==> Pending() != []
    {
      if hasNext {
        SlideNonEmpty(buffer, Rest());
      }
    }

    /**
     * next(): the next prefix of the window while idx < n; otherwise slides
     * the window by the next token and returns its first prefix, or returns
     * None and clears hasNext when no token is left.
     */
    method Next() returns (r: Result<Option<seq<string>>, NGramError>)
      requires Valid() && hasNext
      modifies this, p
      ensures Valid()
      ensures r.Failure? <==> old(n == 0 && Rest() != [])
      ensures r.Failure? ==> r.error == RemoveFromEmpty
      ensures r.Success? ==> old(Pending()) == [r.value] + Pending()
      ensures r.Success? ==> (hasNext <==> Pending() != [])
      ensures |Rest()| <= old(|Rest()|)
    {
      if idx < n {
        r := NextInWindow();
      } else {
        r := SlideWindow();
      }
    }

    method NextInWindow() returns (r: Result<Option<seq<string>>, NGramError>)
      requires Valid() && hasNext && idx < n
      modifies this
      ensures Valid()
      ensures r.Success? && old(Pending()) == [r.value] + Pending()
      ensures hasNext <==> Pending() != []
      ensures Rest() == old(Rest())
    {
      NextPrefix(buffer, idx, Rest());
      r := Success(Some(buffer[..idx + 1]));
      idx := idx + 1;
      HasNextIffPending();
    }

    method SlideWindow() returns (r: Result<Option<seq<string>>, NGramError>)
      requires Valid() && hasNext && idx == n
      modifies this, p
      ensures Valid()
      ensures r.Failure? <==> old(n == 0 && Rest() != [])
      ensures r.Failure? ==> r.error == RemoveFromEmpty
      ensures r.Success? ==> old(Pending()) == [r.value] + Pending()
      ensures r.Success? ==> (hasNext <==> Pending() != [])
      ensures |Rest()| <= old(|Rest()|)
    {
      ghost var w := buffer;
      assert old(Pending()) == Slide(w, Rest()) by {
        assert PrefixesFrom(w, idx) == [];
      }
      FindNext(tk, input, p);
      r := Shift(p.token);
    }

    /** Given what findNext found, drops the head of the window and appends the token, or ends the stream. */
    method Shift(token: Option<string>) returns (r: Result<Option<seq<string>>, NGramError>)
      requires Valid() && hasNext && idx == n
      requires token.None? ==> Rest() == []
      modifies this
      ensures Valid() && Rest() == old(Rest())
      ensures r.Failure? <==> token.Some? && old(buffer) == []
      ensures r.Failure? ==> r.error == RemoveFromEmpty
      ensures r.Success? ==>
                Slide(old(buffer), (if token.Some? then [token.value] else []) + Rest()) == [r.value] + Pending()
      ensures r.Success? ==> (hasNext <==> Pending() != [])
    {
      idx := 0;
      if token.Some? {
        if buffer == [] {
          return Failure(RemoveFromEmpty);
        }
        SlideOnce(buffer, token.value, Rest());
        buffer := buffer[1..] + [token.value];
        r := Success(Some(buffer[..1]));
        idx := 1;
        SlideNonEmpty(buffer, Rest());
      } else {
        hasNext := false;
        r := Success(None);
        assert [] + Rest() == [];
      }
    }
  }

  /** While idx < n, next() returns the prefix of length idx + 1. */
  lemma NextPrefix(w: seq<string>, idx: nat, rest: seq<string>)
    requires idx < |w|
    ensures PrefixesFrom(w, idx) + Slide(w, rest) == [Some(w[..idx + 1])] + (PrefixesFrom(w, idx + 1) + Slide(w, rest))
  {
  }

  /** A slide returns the first prefix of the new window. */
  lemma SlideOnce(w: seq<string>, t: string, rest: seq<string>)
    requires w != []
    ensures var w' := w[1..] + [t];
      Slide(w, [t] + rest) == [Some(w'[..1])] + (PrefixesFrom(w', 1) + Slide(w', rest))
  {
    assert ([t] + rest)[1..] == rest;
  }

  /**
   * tokenize(input, n): every value next() returns while hasNext holds.
   * The last one is None whenever there are at least n tokens.
   */
  method TokenizeNGrams(tk: PlainTextTokenizer, input: string, n: int)
    returns (r: Result<seq<Option<seq<string>>>, NGramError>)
    requires WellFormed(tk)
    ensures n < 0 ==> r == Failure(NegativeCapacity)
    ensures n == 0 && TokensOf(tk, tk.normalize(input)) != [] ==> r == Failure(RemoveFromEmpty)
    ensures n > 0 || (n == 0 && TokensOf(tk, tk.normalize(input)) == []) ==>
              r == Success(NGramOutput(TokensOf(tk, tk.normalize(input)), n))
  {
    if n < 0 {
      return Failure(NegativeCapacity);
    }
    var it := new TextTokenizerIteratorNGram(tk, tk.normalize(input), n);
    ghost var all := it.Pending();
    var rv := [];
    if n == 0 {
      // The first pass of the loop, taken apart: with an empty window
      // next() slides at once, and fails if a token is left to slide in.
      assert it.Rest() == TokensOf(tk, tk.normalize(input));
      var g := it.Next();
      if g.Failure? {
        return Failure(g.error);
      }
      rv := [g.value];
    } else {
      it.HasNextIffPending();
    }
    assert rv + it.Pending() == all;
    r := Drain(it, rv);
  }

  lemma AppendStep<T>(done: seq<T>, x: T, rest: seq<T>, before: seq<T>, all: seq<T>)
    requires done + before == all && before == [x] + rest
    ensures (done + [x]) + rest == all && |rest| < |before|
  {
  }

  lemma EmptyAppend<T>(done: seq<T>, rest: seq<T>, all: seq<T>)
    requires done + rest == all && rest == []
    ensures done == all
  {
  }

  /** The while (hasNext) add(next()) loop of tokenize(String, int), after the values rv. */
  method Drain(it: TextTokenizerIteratorNGram, rv: seq<Option<seq<string>>>)
    returns (r: Result<seq<Option<seq<string>>>, NGramError>)
    requires it.Valid() && (it.n > 0 || it.Rest() == [])
    requires it.hasNext <==> it.Pending() != []
    modifies it, it.p
    ensures r == Success(rv + old(it.Pending()))
  {
    ghost var all := rv + it.Pending();
    var out := rv;
    while it.hasNext
      invariant it.Valid() && (it.n > 0 || it.Rest() == [])
      invariant out + it.Pending() == all
      invariant it.hasNext <==> it.Pending() != []
      decreases |it.Pending()|
    {
      ghost var before := it.Pending();
      var g := it.Next();
      AppendStep(out, g.value, it.Pending(), before, all);
      out := out + [g.value];
    }
    EmptyAppend(out, it.Pending(), all);
    r := Success(out);
  }
}
