/** `compute_schema_linking`: every n-gram of the question, longest first, is compared
    with every column (except column 0, `*`) and every table; an exact match writes the
    exact flag for each position of the n-gram, a partial match writes the partial flag
    only where nothing has been written yet. Keys `"q,c"` are pairs here. */
module SchemaLinking {
  import opened Text

  /** A key `"q,c"`: question position `q`, column or table id `c`. */
  type Key = (nat, nat)

  /** `CEM`, `CPM`, `TEM`, `TPM`: column or table, exact or partial. */
  datatype Flag = CEM | CPM | TEM | TPM

  /** A word character for `\b`, over ASCII: letters, digits and `_`. */
  predicate IsWordChar(c: char) {
    ('a' <= c <= 'z') || ('A' <= c <= 'Z') || ('0' <= c <= '9') || c == '_'
  }

  /** `\b` holds at position `p` of `y`: a word character on exactly one side. */
  predicate Boundary(y: string, p: nat)
    requires p <= |y|
  {
    (p > 0 && IsWordChar(y[p - 1])) != (p < |y| && IsWordChar(y[p]))
  }

  /** `re.match(rf"\b{re.escape(x)}\b", y)`: the escaped pattern is the literal `x`,
      anchored at the start of `y`, with a word boundary on both sides. */
  predicate BoundedPrefix(x: string, y: string) {
    StartsWith(y, x) && Boundary(y, 0) && Boundary(y, |x|)
  }

  /** One character of `string.punctuation`: the printable ASCII characters that are
      neither letters, digits nor space, i.e. `!` to `/`, `:` to `@`, `[` to `` ` `` and
      `{` to `~`. */
  predicate IsPunct(s: string) {
    |s| == 1 && (('!' <= s[0] <= '/') || (':' <= s[0] <= '@') || ('[' <= s[0] <= '`') || ('{' <= s[0] <= '~'))
  }

  /** `exact_match(x_list, y_list)` */
  predicate ExactMatch(x: seq<string>, y: seq<string>) {
    Join(" ", x) == Join(" ", y)
  }

  /** `partial_match(x_list, y_list)`; `stop` is the English stopword list. */
  predicate PartialMatch(stop: set<string>, x: seq<string>, y: seq<string>) {
    var xs := Join(" ", x);
    if xs in stop || IsPunct(xs) then false
    else BoundedPrefix(xs, Join(" ", y))
  }

  /** A partial match is never a stopword or a punctuation mark, and its text occurs
      in the schema text (at the start). */
  lemma PartialMatchSpec(stop: set<string>, x: seq<string>, y: seq<string>)
    requires PartialMatch(stop, x, y)
    ensures Join(" ", x) !in stop && !IsPunct(Join(" ", x))
    ensures StartsWith(Join(" ", y), Join(" ", x)) && Contains(Join(" ", y), Join(" ", x))
  {
    assert At(Join(" ", y), 0, Join(" ", x));
  }

  /** An exact match whose text starts and ends with a word character, and is neither
      a stopword nor a punctuation mark, is also a partial match. */
  lemma ExactIsPartial(stop: set<string>, x: seq<string>, y: seq<string>)
    requires ExactMatch(x, y)
    requires var xs := Join(" ", x); xs != [] && IsWordChar(xs[0]) && IsWordChar(xs[|xs| - 1])
    requires Join(" ", x) !in stop && !IsPunct(Join(" ", x))
    ensures PartialMatch(stop, x, y)
  {
  }

  /** A partial match of a word-ending text never stops inside a word of the schema. */
  lemma PartialEndsAtWord(stop: set<string>, x: seq<string>, y: seq<string>)
    requires PartialMatch(stop, x, y)
    requires var xs := Join(" ", x); xs != [] && IsWordChar(xs[|xs| - 1])
    ensures var xs, ys := Join(" ", x), Join(" ", y); |xs| == |ys| || !IsWordChar(ys[|xs|])
  {
    var xs, ys := Join(" ", x), Join(" ", y);
    assert ys[|xs| - 1] == ys[..|xs|][|xs| - 1];
  }

  /** Joining non-empty space-free tokens: the first token, then a space or the end. */
  lemma JoinHead(x: seq<string>)
    requires |x| > 0 && Words(x)
    ensures |Join(" ", x)| >= |x[0]| && Join(" ", x)[..|x[0]|] == x[0]
    ensures |x| == 1 <==> |Join(" ", x)| == |x[0]|
    ensures |x| > 1 ==> Join(" ", x)[|x[0]|] == ' ' && Join(" ", x)[|x[0]| + 1..] == Join(" ", x[1..])
  {
    if |x| > 1 {
      assert Join(" ", x) == x[0] + " " + Join(" ", x[1..]);
    }
  }

  /** Over tokens that are non-empty and hold no whitespace, `exact_match` is token-list
      equality. */
  lemma {:induction false} ExactMatchIsEquality(x: seq<string>, y: seq<string>)
    requires Words(x) && Words(y)
    ensures ExactMatch(x, y) <==> x == y
    decreases |x|
  {
    if ExactMatch(x, y) && x != [] && y != [] {
      var j := Join(" ", x);
      JoinHead(x);
      JoinHead(y);
      assert x[0] == y[0];
      if |x| > 1 && |y| > 1 {
        ExactMatchIsEquality(x[1..], y[1..]);
        assert x == [x[0]] + x[1..] && y == [y[0]] + y[1..];
      }
    } else if ExactMatch(x, y) && x != [] {
      JoinHead(x);
    } else if ExactMatch(x, y) && y != [] {
      JoinHead(y);
    }
  }

  // ---------------------------------------------------------------------------
  // The n-gram windows

  /** The window of `n` tokens at `i` is one the loops compare: `n` runs from 5 down to
      1, `i` over `range(len(question) - n + 1)`, and blank n-grams are skipped. */
  predicate Window(question: seq<string>, n: nat, i: nat) {
    1 <= n <= 5 && i + n <= |question| && Strip(Join(" ", question[i..i + n])) != []
  }

  /** Item `c` (from `lo` on) exactly matches the n-gram `gram`. */
  predicate ExactAt(gram: seq<string>, items: seq<seq<string>>, lo: nat, c: nat) {
    lo <= c < |items| && ExactMatch(gram, items[c])
  }

  /** Item `c` (from `lo` on) partially matches the n-gram `gram`. */
  predicate PartialAt(stop: set<string>, gram: seq<string>, items: seq<seq<string>>, lo: nat, c: nat) {
    lo <= c < |items| && PartialMatch(stop, gram, items[c])
  }

  /** The n-gram of `n` tokens at `i` exists and item `c` matches it exactly. */
  predicate ExactGram(question: seq<string>, items: seq<seq<string>>, lo: nat, n: nat, i: nat, c: nat) {
    i + n <= |question| && ExactAt(question[i..i + n], items, lo, c)
  }

  /** The n-gram of `n` tokens at `i` exists and item `c` matches it partially. */
  predicate PartialGram(stop: set<string>, question: seq<string>, items: seq<seq<string>>, lo: nat, n: nat, i: nat, c: nat) {
    i + n <= |question| && PartialAt(stop, question[i..i + n], items, lo, c)
  }

  /** The window of `n` tokens at `i` covers position `q` and matches item `c`. */
  predicate NGramLinks(stop: set<string>, question: seq<string>, items: seq<seq<string>>, lo: nat,
                       n: nat, i: nat, q: nat, c: nat) {
    Window(question, n, i) && i <= q < i + n &&
    (ExactGram(question, items, lo, n, i, c) || PartialGram(stop, question, items, lo, n, i, c))
  }

  /** The window of `n` tokens at `i` covers position `q` and matches item `c` exactly. */
  predicate NGramExact(question: seq<string>, items: seq<seq<string>>, lo: nat, n: nat, i: nat, q: nat, c: nat) {
    Window(question, n, i) && i <= q < i + n && ExactGram(question, items, lo, n, i, c)
  }

  /** What one sweep compares, apart from the strings: `len` question positions, `size`
      item ids, which windows `(n, i)` are compared, and which items `c` a compared
      window matches exactly or partially. */
  datatype Hits = Hits(len: nat, size: nat, window: (nat, nat) -> bool,
                       exact: (nat, nat, nat) -> bool, partial: (nat, nat, nat) -> bool)

  /** The comparisons `compute_schema_linking` makes against one item list; `lo` is 1 for
      the columns (column 0 is skipped) and 0 for the tables. */
  function HitsFor(stop: set<string>, question: seq<string>, items: seq<seq<string>>, lo: nat): Hits {
    Hits(|question|, |items|,
         (n: nat, i: nat) => Window(question, n, i),
         (n: nat, i: nat, c: nat) => ExactGram(question, items, lo, n, i, c),
         (n: nat, i: nat, c: nat) => PartialGram(stop, question, items, lo, n, i, c))
  }

  /** Window `(n, i)` is visited before window `(m, j)`: longer n-grams first, then left
      to right. */
  predicate Earlier(n: nat, i: nat, m: nat, j: nat) {
    n > m || (n == m && i < j)
  }

  /** Compared window `(n, i)`, of length 1 to 5, covers position `q` and matches item
      `c` exactly. */
  predicate ExactHit(h: Hits, n: nat, i: nat, q: nat, c: nat) {
    1 <= n <= 5 && h.window(n, i) && i + n <= h.len && i <= q < i + n && c < h.size && h.exact(n, i, c)
  }

  /** Compared window `(n, i)`, of length 1 to 5, covers position `q` and matches item
      `c`. */
  predicate AnyHit(h: Hits, n: nat, i: nat, q: nat, c: nat) {
    1 <= n <= 5 && h.window(n, i) && i + n <= h.len && i <= q < i + n && c < h.size &&
    (h.exact(n, i, c) || h.partial(n, i, c))
  }

  /** Some window visited before `(m, j)` links `q` to `c`. */
  ghost predicate Linked(h: Hits, q: nat, c: nat, m: nat, j: nat) {
    exists n, i :: Earlier(n, i, m, j) && AnyHit(h, n, i, q, c)
  }

  /** Some window visited before `(m, j)` links `q` to `c` exactly. */
  ghost predicate ExactlyLinked(h: Hits, q: nat, c: nat, m: nat, j: nat) {
    exists n, i :: Earlier(n, i, m, j) && ExactHit(h, n, i, q, c)
  }

  /** The dictionary after every window before `(m, j)`: a key is present iff some
      earlier window links it, and holds the exact flag iff some earlier window links
      it exactly, the partial flag otherwise. */
  ghost predicate Reflects(mt: map<Key, Flag>, h: Hits, exact: Flag, partial: Flag, m: nat, j: nat) {
    && (forall k: Key :: k in mt <==> Linked(h, k.0, k.1, m, j))
    && (forall k: Key | k in mt :: mt[k] == exact || mt[k] == partial)
    && (forall k: Key | k in mt :: mt[k] == exact <==> ExactlyLinked(h, k.0, k.1, m, j))
  }

  /** Over the real comparisons, a hit is an n-gram window that covers the position and
      matches the item. */
  lemma HitMeans(stop: set<string>, question: seq<string>, items: seq<seq<string>>, lo: nat,
                 n: nat, i: nat, q: nat, c: nat)
    ensures AnyHit(HitsFor(stop, question, items, lo), n, i, q, c) <==> NGramLinks(stop, question, items, lo, n, i, q, c)
    ensures ExactHit(HitsFor(stop, question, items, lo), n, i, q, c) <==> NGramExact(question, items, lo, n, i, q, c)
  {
    var h := HitsFor(stop, question, items, lo);
    assert h.window(n, i) == Window(question, n, i);
    assert h.exact(n, i, c) == ExactGram(question, items, lo, n, i, c);
    assert h.partial(n, i, c) == PartialGram(stop, question, items, lo, n, i, c);
  }

  /** Over the real comparisons, a link after the whole sweep is an n-gram of length 1
      to 5 that covers the position and matches the item. */
  lemma LinkedMeans(stop: set<string>, question: seq<string>, items: seq<seq<string>>, lo: nat, q: nat, c: nat)
    ensures Linked(HitsFor(stop, question, items, lo), q, c, 0, 0) <==>
            exists n, i :: NGramLinks(stop, question, items, lo, n, i, q, c)
  {
    var h := HitsFor(stop, question, items, lo);
    if exists n, i :: NGramLinks(stop, question, items, lo, n, i, q, c) {
      var n, i :| NGramLinks(stop, question, items, lo, n, i, q, c);
      HitMeans(stop, question, items, lo, n, i, q, c);
      assert Earlier(n, i, 0, 0);
    }
    if Linked(h, q, c, 0, 0) {
      var n, i :| Earlier(n, i, 0, 0) && AnyHit(h, n, i, q, c);
      HitMeans(stop, question, items, lo, n, i, q, c);
    }
  }

  /** ... and an exact link is an n-gram that matches the item exactly. */
  lemma ExactlyLinkedMeans(stop: set<string>, question: seq<string>, items: seq<seq<string>>, lo: nat, q: nat, c: nat)
    ensures ExactlyLinked(HitsFor(stop, question, items, lo), q, c, 0, 0) <==>
            exists n, i :: NGramExact(question, items, lo, n, i, q, c)
  {
    var h := HitsFor(stop, question, items, lo);
    if exists n, i :: NGramExact(question, items, lo, n, i, q, c) {
      var n, i :| NGramExact(question, items, lo, n, i, q, c);
      HitMeans(stop, question, items, lo, n, i, q, c);
      assert Earlier(n, i, 0, 0);
    }
    if ExactlyLinked(h, q, c, 0, 0) {
      var n, i :| Earlier(n, i, 0, 0) && ExactHit(h, n, i, q, c);
      HitMeans(stop, question, items, lo, n, i, q, c);
    }
  }

  /** Whatever links a key lies inside the question and the item range. */
  lemma LinkedBounds(h: Hits, q: nat, c: nat, m: nat, j: nat)
    requires Linked(h, q, c, m, j)
    ensures q < h.len && c < h.size
  {
  }

  /** Visiting window `(m, j)` adds exactly its own hits. */
  lemma LinkedStep(h: Hits, q: nat, c: nat, m: nat, j: nat)
    ensures Linked(h, q, c, m, j + 1) <==> Linked(h, q, c, m, j) || AnyHit(h, m, j, q, c)
    ensures ExactlyLinked(h, q, c, m, j + 1) <==> ExactlyLinked(h, q, c, m, j) || ExactHit(h, m, j, q, c)
  {
    if Linked(h, q, c, m, j + 1) {
      var n, i :| Earlier(n, i, m, j + 1) && AnyHit(h, n, i, q, c);
      if !Earlier(n, i, m, j) {
        assert n == m && i == j;
      }
    }
    if ExactlyLinked(h, q, c, m, j + 1) {
      var n, i :| Earlier(n, i, m, j + 1) && ExactHit(h, n, i, q, c);
      if !Earlier(n, i, m, j) {
        assert n == m && i == j;
      }
    }
    if AnyHit(h, m, j, q, c) {
      assert Earlier(m, j, m, j + 1);
    }
    if ExactHit(h, m, j, q, c) {
      assert Earlier(m, j, m, j + 1);
    }
  }

  /** Once `j` is past the last window of length `m`, the next length starts. */
  lemma LinkedNextLength(h: Hits, q: nat, c: nat, m: nat, j: nat)
    requires m >= 1 && j + m > h.len
    ensures Linked(h, q, c, m, j) <==> Linked(h, q, c, m - 1, 0)
    ensures ExactlyLinked(h, q, c, m, j) <==> ExactlyLinked(h, q, c, m - 1, 0)
  {
    if Linked(h, q, c, m - 1, 0) {
      var n, i :| Earlier(n, i, m - 1, 0) && AnyHit(h, n, i, q, c);
      assert Earlier(n, i, m, j);
    }
    if ExactlyLinked(h, q, c, m - 1, 0) {
      var n, i :| Earlier(n, i, m - 1, 0) && ExactHit(h, n, i, q, c);
      assert Earlier(n, i, m, j);
    }
  }

  /** An exact link is a link. */
  lemma ExactlyLinkedIsLinked(h: Hits, q: nat, c: nat, m: nat, j: nat)
    ensures ExactlyLinked(h, q, c, m, j) ==> Linked(h, q, c, m, j)
  {
    if ExactlyLinked(h, q, c, m, j) {
      var n, i :| Earlier(n, i, m, j) && ExactHit(h, n, i, q, c);
      assert AnyHit(h, n, i, q, c);
    }
  }

  /** What the exact pass of window `(m, j)` does to a dictionary: every covered
      position of every exactly matching item gets `flag`; nothing else changes. */
  ghost predicate ExactWritten(before: map<Key, Flag>, after: map<Key, Flag>, h: Hits, m: nat, j: nat, flag: Flag) {
    && (forall k: Key :: k in after <==> k in before || (j <= k.0 < j + m && k.1 < h.size && h.exact(m, j, k.1)))
    && (forall k: Key | k in after ::
          after[k] == if j <= k.0 < j + m && k.1 < h.size && h.exact(m, j, k.1) then flag else before[k])
  }

  /** What the partial pass of window `(m, j)` does: covered positions of partially
      matching items that hold nothing yet get `flag`; every key already present keeps
      its flag. */
  ghost predicate PartialWritten(before: map<Key, Flag>, after: map<Key, Flag>, h: Hits, m: nat, j: nat, flag: Flag) {
    && (forall k: Key :: k in after <==> k in before || (j <= k.0 < j + m && k.1 < h.size && h.partial(m, j, k.1)))
    && (forall k: Key | k in before :: after[k] == before[k])
    && (forall k: Key | k in after && k !in before :: after[k] == flag)
  }

  /** An exact flag survives any later window: the partial pass never overwrites, and
      the exact pass writes only exact flags. */
  lemma ExactStaysExact(h: Hits, m: nat, j: nat, exact: Flag, partial: Flag,
                        mt0: map<Key, Flag>, mt1: map<Key, Flag>, mt2: map<Key, Flag>, k: Key)
    requires ExactWritten(mt0, mt1, h, m, j, exact)
    requires PartialWritten(mt1, mt2, h, m, j, partial)
    requires k in mt0 && mt0[k] == exact
    ensures k in mt2 && mt2[k] == exact
  {
  }

  /** One window's two passes keep the dictionary in step with the windows visited. */
  lemma WindowStep(h: Hits, exact: Flag, partial: Flag, m: nat, j: nat,
                   mt0: map<Key, Flag>, mt1: map<Key, Flag>, mt2: map<Key, Flag>)
    requires 1 <= m <= 5 && h.window(m, j) && j + m <= h.len && exact != partial
    requires Reflects(mt0, h, exact, partial, m, j)
    requires ExactWritten(mt0, mt1, h, m, j, exact)
    requires PartialWritten(mt1, mt2, h, m, j, partial)
    ensures Reflects(mt2, h, exact, partial, m, j + 1)
  {
    forall k: Key ensures k in mt2 <==> Linked(h, k.0, k.1, m, j + 1) {
      LinkedStep(h, k.0, k.1, m, j);
    }
    WindowFlags(h, exact, partial, m, j, mt0, mt1, mt2);
  }

  lemma WindowFlags(h: Hits, exact: Flag, partial: Flag, m: nat, j: nat,
                    mt0: map<Key, Flag>, mt1: map<Key, Flag>, mt2: map<Key, Flag>)
    requires 1 <= m <= 5 && h.window(m, j) && j + m <= h.len && exact != partial
    requires Reflects(mt0, h, exact, partial, m, j)
    requires ExactWritten(mt0, mt1, h, m, j, exact)
    requires PartialWritten(mt1, mt2, h, m, j, partial)
    ensures forall k: Key | k in mt2 :: mt2[k] == exact || mt2[k] == partial
    ensures forall k: Key | k in mt2 :: mt2[k] == exact <==> ExactlyLinked(h, k.0, k.1, m, j + 1)
  {
    forall k: Key | k in mt2
      ensures mt2[k] == exact || mt2[k] == partial
      ensures mt2[k] == exact <==> ExactlyLinked(h, k.0, k.1, m, j + 1)
    {
      LinkedStep(h, k.0, k.1, m, j);
      var hit := j <= k.0 < j + m && k.1 < h.size && h.exact(m, j, k.1);
      assert hit <==> ExactHit(h, m, j, k.0, k.1);
      if k in mt1 {
        assert mt2[k] == mt1[k];
        if !hit {
          assert k in mt0 && mt1[k] == mt0[k];
        }
      } else {
        assert k !in mt0 && !hit && mt2[k] == partial;
        ExactlyLinkedIsLinked(h, k.0, k.1, m, j);
      }
    }
  }

  /** A window the loops skip writes nothing and links nothing. */
  lemma BlankStep(h: Hits, exact: Flag, partial: Flag, m: nat, j: nat, mt: map<Key, Flag>)
    requires !(1 <= m <= 5 && h.window(m, j) && j + m <= h.len)
    requires Reflects(mt, h, exact, partial, m, j)
    ensures Reflects(mt, h, exact, partial, m, j + 1)
  {
    forall k: Key ensures Linked(h, k.0, k.1, m, j + 1) <==> Linked(h, k.0, k.1, m, j) {
      LinkedStep(h, k.0, k.1, m, j);
    }
    forall k: Key ensures ExactlyLinked(h, k.0, k.1, m, j + 1) <==> ExactlyLinked(h, k.0, k.1, m, j) {
      LinkedStep(h, k.0, k.1, m, j);
    }
  }

  /** Moving from the end of length `m` to the start of length `m - 1`. */
  lemma LengthStep(h: Hits, exact: Flag, partial: Flag, m: nat, j: nat, mt: map<Key, Flag>)
    requires m >= 1 && j + m > h.len
    requires Reflects(mt, h, exact, partial, m, j)
    ensures Reflects(mt, h, exact, partial, m - 1, 0)
  {
    forall k: Key ensures Linked(h, k.0, k.1, m, j) <==> Linked(h, k.0, k.1, m - 1, 0) {
      LinkedNextLength(h, k.0, k.1, m, j);
    }
    forall k: Key ensures ExactlyLinked(h, k.0, k.1, m, j) <==> ExactlyLinked(h, k.0, k.1, m - 1, 0) {
      LinkedNextLength(h, k.0, k.1, m, j);
    }
  }

  /** Before the first window nothing is linked. */
  lemma ReflectsStart(h: Hits, exact: Flag, partial: Flag)
    ensures Reflects(map[], h, exact, partial, 5, 0)
  {
    forall k: Key ensures !Linked(h, k.0, k.1, 5, 0) {
    }
  }

  /** Every key of a finished dictionary lies inside the question and the item range. */
  lemma ReflectsBounds(h: Hits, exact: Flag, partial: Flag, mt: map<Key, Flag>)
    requires Reflects(mt, h, exact, partial, 0, 0)
    ensures forall k: Key | k in mt :: k.1 < h.size && k.0 < h.len
  {
    forall k: Key | k in mt ensures k.1 < h.size && k.0 < h.len {
      LinkedBounds(h, k.0, k.1, 0, 0);
    }
  }

  // ---------------------------------------------------------------------------
  // The sweep as functions

  /** The keys the exact pass of window `(m, j)` writes. */
  function ExactCover(h: Hits, m: nat, j: nat): set<Key> {
    set q: nat, c: nat | j <= q < j + m && c < h.size && h.exact(m, j, c) :: (q, c)
  }

  /** The keys the partial pass of window `(m, j)` considers. */
  function PartialCover(h: Hits, m: nat, j: nat): set<Key> {
    set q: nat, c: nat | j <= q < j + m && c < h.size && h.partial(m, j, c) :: (q, c)
  }

  /** Every key of `cover` set to `flag`. */
  function Overwrite(mt: map<Key, Flag>, cover: set<Key>, flag: Flag): map<Key, Flag> {
    map k | k in mt.Keys + cover :: if k in cover then flag else mt[k]
  }

  /** Every key of `cover` not yet present set to `flag`. */
  function FillIn(mt: map<Key, Flag>, cover: set<Key>, flag: Flag): map<Key, Flag> {
    map k | k in mt.Keys + cover :: if k in mt then mt[k] else flag
  }

  /** `ExactWritten` pins the new dictionary down. */
  lemma ExactWrittenIsOverwrite(mt: map<Key, Flag>, r: map<Key, Flag>, h: Hits, m: nat, j: nat, flag: Flag)
    ensures ExactWritten(mt, r, h, m, j, flag) <==> r == Overwrite(mt, ExactCover(h, m, j), flag)
  {
    var cover := ExactCover(h, m, j);
    assert forall k: Key :: k in cover <==> j <= k.0 < j + m && k.1 < h.size && h.exact(m, j, k.1);
    OverwriteUnique(mt, r, cover, flag);
  }

  /** A dictionary that holds the old keys and the cover, with the cover set to `flag`
      and the rest as before, is the overwrite. */
  lemma OverwriteUnique(mt: map<Key, Flag>, r: map<Key, Flag>, cover: set<Key>, flag: Flag)
    ensures ((forall k: Key :: k in r <==> k in mt || k in cover)
             && (forall k: Key | k in r :: r[k] == if k in cover then flag else mt[k]))
        <==> r == Overwrite(mt, cover, flag)
  {
    var w := Overwrite(mt, cover, flag);
    if (forall k: Key :: k in r <==> k in mt || k in cover) {
      assert r.Keys == w.Keys;
    }
  }

  /** `PartialWritten` pins the new dictionary down. */
  lemma PartialWrittenIsFillIn(mt: map<Key, Flag>, r: map<Key, Flag>, h: Hits, m: nat, j: nat, flag: Flag)
    ensures PartialWritten(mt, r, h, m, j, flag) <==> r == FillIn(mt, PartialCover(h, m, j), flag)
  {
    var cover := PartialCover(h, m, j);
    assert forall k: Key :: k in cover <==> j <= k.0 < j + m && k.1 < h.size && h.partial(m, j, k.1);
    FillInUnique(mt, r, cover, flag);
  }

  /** A dictionary that holds the old keys and the cover, keeps the old flags and has
      `flag` at the new keys, is the fill-in. */
  lemma FillInUnique(mt: map<Key, Flag>, r: map<Key, Flag>, cover: set<Key>, flag: Flag)
    ensures ((forall k: Key :: k in r <==> k in mt || k in cover)
             && (forall k: Key | k in mt :: r[k] == mt[k])
             && (forall k: Key | k in r && k !in mt :: r[k] == flag))
        <==> r == FillIn(mt, cover, flag)
  {
    var w := FillIn(mt, cover, flag);
    if (forall k: Key :: k in r <==> k in mt || k in cover) {
      assert r.Keys == w.Keys;
    }
  }

  /** Visiting window `(m, j)`: nothing when the loops skip it, otherwise the exact pass
      and then the partial pass. */
  function Visit(mt: map<Key, Flag>, h: Hits, exact: Flag, partial: Flag, m: nat, j: nat): map<Key, Flag> {
    if !(1 <= m <= 5 && h.window(m, j) && j + m <= h.len) then mt
    else FillIn(Overwrite(mt, ExactCover(h, m, j), exact), PartialCover(h, m, j), partial)
  }

  /** One past the last start position for n-grams of length `m`: `len(question) - m + 1`,
      or 0 when the question is shorter. */
  function End(len: nat, m: nat): nat {
    if len + 1 >= m then len + 1 - m else 0
  }

  /** The dictionary before window `(m, j)`: windows of length 5 first, each length from
      left to right. */
  function Sweep(h: Hits, exact: Flag, partial: Flag, m: nat, j: nat): map<Key, Flag>
    requires m <= 5
    decreases 5 - m, j
  {
    if j > 0 then Visit(Sweep(h, exact, partial, m, j - 1), h, exact, partial, m, j - 1)
    else if m == 5 then map[]
    else Sweep(h, exact, partial, m + 1, End(h.len, m + 1))
  }

  /** After the last window of length `m` comes the first of length `m - 1`. */
  lemma SweepNextLength(h: Hits, exact: Flag, partial: Flag, m: nat)
    requires 1 <= m <= 5
    ensures Sweep(h, exact, partial, m - 1, 0) == Sweep(h, exact, partial, m, End(h.len, m))
  {
  }

  /** Each later window of a length visits the dictionary left by the one before. */
  lemma SweepVisits(h: Hits, exact: Flag, partial: Flag, m: nat, j: nat)
    requires m <= 5 && j > 0
    ensures Sweep(h, exact, partial, m, j) == Visit(Sweep(h, exact, partial, m, j - 1), h, exact, partial, m, j - 1)
  {
  }

  /** Visiting one window keeps the dictionary in step. */
  lemma VisitStep(h: Hits, exact: Flag, partial: Flag, m: nat, j: nat, mt0: map<Key, Flag>)
    requires exact != partial
    requires Reflects(mt0, h, exact, partial, m, j)
    ensures Reflects(Visit(mt0, h, exact, partial, m, j), h, exact, partial, m, j + 1)
  {
    if 1 <= m <= 5 && h.window(m, j) && j + m <= h.len {
      var mt1 := Overwrite(mt0, ExactCover(h, m, j), exact);
      var mt2 := FillIn(mt1, PartialCover(h, m, j), partial);
      ExactWrittenIsOverwrite(mt0, mt1, h, m, j, exact);
      PartialWrittenIsFillIn(mt1, mt2, h, m, j, partial);
      WindowStep(h, exact, partial, m, j, mt0, mt1, mt2);
    } else {
      BlankStep(h, exact, partial, m, j, mt0);
    }
  }

  /** The sweep is in step with the windows it has visited. */
  lemma {:induction false} SweepReflects(h: Hits, exact: Flag, partial: Flag, m: nat, j: nat)
    requires m <= 5 && exact != partial
    ensures Reflects(Sweep(h, exact, partial, m, j), h, exact, partial, m, j)
    decreases 5 - m, j
  {
    if j > 0 {
      SweepReflects(h, exact, partial, m, j - 1);
      WindowReflects(h, exact, partial, m, j);
    } else if m == 5 {
      ReflectsStart(h, exact, partial);
    } else {
      SweepReflects(h, exact, partial, m + 1, End(h.len, m + 1));
      NextLengthReflects(h, exact, partial, m);
    }
  }

  /** One more window of the same length keeps the sweep in step. */
  lemma WindowReflects(h: Hits, exact: Flag, partial: Flag, m: nat, j: nat)
    requires m <= 5 && exact != partial && j > 0
    requires Reflects(Sweep(h, exact, partial, m, j - 1), h, exact, partial, m, j - 1)
    ensures Reflects(Sweep(h, exact, partial, m, j), h, exact, partial, m, j)
  {
    VisitStep(h, exact, partial, m, j - 1, Sweep(h, exact, partial, m, j - 1));
    SweepVisits(h, exact, partial, m, j);
  }

  /** Moving on to the next shorter length keeps the sweep in step. */
  lemma NextLengthReflects(h: Hits, exact: Flag, partial: Flag, m: nat)
    requires m < 5 && exact != partial
    requires Reflects(Sweep(h, exact, partial, m + 1, End(h.len, m + 1)), h, exact, partial, m + 1, End(h.len, m + 1))
    ensures Reflects(Sweep(h, exact, partial, m, 0), h, exact, partial, m, 0)
  {
    var e := End(h.len, m + 1);
    SweepNextLength(h, exact, partial, m + 1);
    LengthStep(h, exact, partial, m + 1, e, Sweep(h, exact, partial, m + 1, e));
  }

  // ---------------------------------------------------------------------------
  // The sweep as loops

  /** `for q_id in range(i, i + n): d[f"{q_id},{c}"] = flag` */
  method MarkAll(mt: map<Key, Flag>, i: nat, n: nat, c: nat, flag: Flag) returns (r: map<Key, Flag>)
    ensures forall k: Key :: k in r <==> k in mt || (k.1 == c && i <= k.0 < i + n)
    ensures forall k: Key | k in r :: r[k] == if k.1 == c && i <= k.0 < i + n then flag else mt[k]
  {
    r := mt;
    var q := i;
    while q < i + n
      invariant i <= q <= i + n
      invariant forall k: Key :: k in r <==> k in mt || (k.1 == c && i <= k.0 < q)
      invariant forall k: Key | k in r :: r[k] == if k.1 == c && i <= k.0 < q then flag else mt[k]
    {
      r := r[(q, c) := flag];
      q := q + 1;
    }
  }

  /** `for q_id in range(i, i + n): if key not in d: d[key] = flag` */
  method MarkAbsent(mt: map<Key, Flag>, i: nat, n: nat, c: nat, flag: Flag) returns (r: map<Key, Flag>)
    ensures forall k: Key :: k in r <==> k in mt || (k.1 == c && i <= k.0 < i + n)
    ensures forall k: Key | k in mt :: r[k] == mt[k]
    ensures forall k: Key | k in r && k !in mt :: r[k] == flag
  {
    r := mt;
    var q := i;
    while q < i + n
      invariant i <= q <= i + n
      invariant forall k: Key :: k in r <==> k in mt || (k.1 == c && i <= k.0 < q)
      invariant forall k: Key | k in mt :: r[k] == mt[k]
      invariant forall k: Key | k in r && k !in mt :: r[k] == flag
    {
      if (q, c) !in r {
        r := r[(q, c) := flag];
      }
      q := q + 1;
    }
  }

  /** The exact-match pass of window `(n, i)` over the items from `lo` on. */
  method ExactPass(stop: set<string>, question: seq<string>, items: seq<seq<string>>, lo: nat,
                   n: nat, i: nat, mt: map<Key, Flag>, flag: Flag) returns (r: map<Key, Flag>)
    requires i + n <= |question|
    ensures ExactWritten(mt, r, HitsFor(stop, question, items, lo), n, i, flag)
  {
    ghost var h := HitsFor(stop, question, items, lo);
    var gram := question[i..i + n];
    r := mt;
    var c := lo;
    while c < |items|
      invariant lo <= c
      invariant forall k: Key :: k in r <==> k in mt || (i <= k.0 < i + n && k.1 < c && k.1 < h.size && h.exact(n, i, k.1))
      invariant forall k: Key | k in r ::
        r[k] == if i <= k.0 < i + n && k.1 < c && k.1 < h.size && h.exact(n, i, k.1) then flag else mt[k]
    {
      if ExactMatch(gram, items[c]) {
        r := MarkAll(r, i, n, c, flag);
      }
      c := c + 1;
    }
  }

  /** The partial-match pass of window `(n, i)` over the items from `lo` on. */
  method PartialPass(stop: set<string>, question: seq<string>, items: seq<seq<string>>, lo: nat,
                     n: nat, i: nat, mt: map<Key, Flag>, flag: Flag) returns (r: map<Key, Flag>)
    requires i + n <= |question|
    ensures PartialWritten(mt, r, HitsFor(stop, question, items, lo), n, i, flag)
  {
    ghost var h := HitsFor(stop, question, items, lo);
    var gram := question[i..i + n];
    r := mt;
    var c := lo;
    while c < |items|
      invariant lo <= c
      invariant forall k: Key :: k in r <==> k in mt || (i <= k.0 < i + n && k.1 < c && k.1 < h.size && h.partial(n, i, k.1))
      invariant forall k: Key | k in mt :: r[k] == mt[k]
      invariant forall k: Key | k in r && k !in mt :: r[k] == flag
    {
      if PartialMatch(stop, gram, items[c]) {
        r := MarkAbsent(r, i, n, c, flag);
      }
      c := c + 1;
    }
  }

  /** One window `(n, i)`: skipped when blank, otherwise the exact passes (columns, then
      tables) and the partial passes (columns, then tables). */
  method ScanWindow(stop: set<string>, question: seq<string>, columns: seq<seq<string>>,
                    tables: seq<seq<string>>, n: nat, i: nat,
                    colMatch: map<Key, Flag>, tabMatch: map<Key, Flag>)
    returns (colOut: map<Key, Flag>, tabOut: map<Key, Flag>)
    requires 1 <= n <= 5 && i + n <= |question|
    ensures colOut == Visit(colMatch, HitsFor(stop, question, columns, 1), CEM, CPM, n, i)
    ensures tabOut == Visit(tabMatch, HitsFor(stop, question, tables, 0), TEM, TPM, n, i)
  {
    var gram := question[i..i + n];
    if Strip(Join(" ", gram)) == [] {
      return colMatch, tabMatch;
    }
    var c1 := ExactPass(stop, question, columns, 1, n, i, colMatch, CEM);
    var t1 := ExactPass(stop, question, tables, 0, n, i, tabMatch, TEM);
    colOut := PartialPass(stop, question, columns, 1, n, i, c1, CPM);
    tabOut := PartialPass(stop, question, tables, 0, n, i, t1, TPM);
    ghost var hc, ht := HitsFor(stop, question, columns, 1), HitsFor(stop, question, tables, 0);
    ExactWrittenIsOverwrite(colMatch, c1, hc, n, i, CEM);
    ExactWrittenIsOverwrite(tabMatch, t1, ht, n, i, TEM);
    PartialWrittenIsFillIn(c1, colOut, hc, n, i, CPM);
    PartialWrittenIsFillIn(t1, tabOut, ht, n, i, TPM);
  }

  /** All windows of length `n`, left to right. */
  method ScanLength(stop: set<string>, question: seq<string>, columns: seq<seq<string>>,
                    tables: seq<seq<string>>, n: nat,
                    colMatch: map<Key, Flag>, tabMatch: map<Key, Flag>)
    returns (colOut: map<Key, Flag>, tabOut: map<Key, Flag>)
    requires 1 <= n <= 5
    requires colMatch == Sweep(HitsFor(stop, question, columns, 1), CEM, CPM, n, 0)
    requires tabMatch == Sweep(HitsFor(stop, question, tables, 0), TEM, TPM, n, 0)
    ensures colOut == Sweep(HitsFor(stop, question, columns, 1), CEM, CPM, n - 1, 0)
    ensures tabOut == Sweep(HitsFor(stop, question, tables, 0), TEM, TPM, n - 1, 0)
  {
    colOut, tabOut := colMatch, tabMatch;
    var i := 0;
    while i + n <= |question|
      invariant i <= End(|question|, n)
      invariant colOut == Sweep(HitsFor(stop, question, columns, 1), CEM, CPM, n, i)
      invariant tabOut == Sweep(HitsFor(stop, question, tables, 0), TEM, TPM, n, i)
    {
      colOut, tabOut := ScanWindow(stop, question, columns, tables, n, i, colOut, tabOut);
      i := i + 1;
    }
    assert i == End(|question|, n);
    SweepNextLength(HitsFor(stop, question, columns, 1), CEM, CPM, n);
    SweepNextLength(HitsFor(stop, question, tables, 0), TEM, TPM, n);
  }

  /** `compute_schema_linking(question, column, table)`: the loops compute the sweep; a
      key is present iff some compared n-gram covering the position matches the item,
      holds the exact flag iff one of them matches exactly, never names column 0, and
      names a position of the question. */
  method ComputeSchemaLinking(stop: set<string>, question: seq<string>, columns: seq<seq<string>>,
                              tables: seq<seq<string>>)
    returns (colMatch: map<Key, Flag>, tabMatch: map<Key, Flag>)
    ensures colMatch == Sweep(HitsFor(stop, question, columns, 1), CEM, CPM, 0, 0)
    ensures tabMatch == Sweep(HitsFor(stop, question, tables, 0), TEM, TPM, 0, 0)
    ensures Reflects(colMatch, HitsFor(stop, question, columns, 1), CEM, CPM, 0, 0)
    ensures Reflects(tabMatch, HitsFor(stop, question, tables, 0), TEM, TPM, 0, 0)
    ensures forall k: Key | k in colMatch :: colMatch[k] == CEM || colMatch[k] == CPM
    ensures forall k: Key | k in tabMatch :: tabMatch[k] == TEM || tabMatch[k] == TPM
    ensures forall k: Key | k in colMatch :: 1 <= k.1 < |columns| && k.0 < |question|
    ensures forall k: Key | k in tabMatch :: k.1 < |tables| && k.0 < |question|
  {
    colMatch, tabMatch := map[], map[];
    var n := 5;
    while n > 0
      invariant 0 <= n <= 5
      invariant colMatch == Sweep(HitsFor(stop, question, columns, 1), CEM, CPM, n, 0)
      invariant tabMatch == Sweep(HitsFor(stop, question, tables, 0), TEM, TPM, n, 0)
    {
      colMatch, tabMatch := ScanLength(stop, question, columns, tables, n, colMatch, tabMatch);
      n := n - 1;
    }
    SweepSound(stop, question, columns, 1, CEM, CPM);
    SweepSound(stop, question, tables, 0, TEM, TPM);
  }

  /** The whole sweep over `items` is in step with the n-gram links, and every key it
      holds names a position of the question and an item from `lo` on. */
  lemma SweepSound(stop: set<string>, question: seq<string>, items: seq<seq<string>>, lo: nat,
                   exact: Flag, partial: Flag)
    requires exact != partial
    ensures Reflects(Sweep(HitsFor(stop, question, items, lo), exact, partial, 0, 0),
                     HitsFor(stop, question, items, lo), exact, partial, 0, 0)
    ensures forall k: Key | k in Sweep(HitsFor(stop, question, items, lo), exact, partial, 0, 0) ::
      lo <= k.1 < |items| && k.0 < |question|
  {
    var h := HitsFor(stop, question, items, lo);
    var mt := Sweep(h, exact, partial, 0, 0);
    SweepReflects(h, exact, partial, 0, 0);
    ReflectsBounds(h, exact, partial, mt);
    forall k: Key | k in mt ensures lo <= k.1 {
      LinkedMeans(stop, question, items, lo, k.0, k.1);
    }
  }
}
