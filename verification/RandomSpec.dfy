/**
 Additive feedback generators on values: a window of words that slides along the
 sequence, and what switching between generators leaves unchanged.
 */
module RandomSpec {
  import opened Arithmetic

  type Long = x: int | -0x8000_0000 <= x <= 0x7FFF_FFFF

  const M: int := 0x7FFF_FFFF
  const NSHUFF: nat := 100

  /** Signed 32-bit addition. */
  function Add(a: Long, b: Long): Long {
    var s: int := a + b;
    if s > 0x7FFF_FFFF then s - 0x1_0000_0000 else if s < -0x8000_0000 then s + 0x1_0000_0000 else s
  }

  /** The upper 31 bits of a word. */
  function Upper(x: Long): Long {
    (if x < 0 then x + 0x1_0000_0000 else x as int) / 2
  }

  /** The sum modulo 2^32. */
  lemma {:induction false} AddExact(a: Long, b: Long)
    ensures (Add(a, b) - a - b) % 0x1_0000_0000 == 0
  {
  }

  /** A word is twice its upper bits and its lowest bit, modulo 2^32. */
  lemma {:induction false} UpperExact(x: Long) returns (bit: int)
    ensures (bit == 0 || bit == 1) && (2 * Upper(x) + bit - x) % 0x1_0000_0000 == 0 && 0 <= Upper(x)
  {
    bit := (if x < 0 then x + 0x1_0000_0000 else x as int) % 2;
  }

  // ---------- the multiplicative generator ----------

  /** good_rand: every intermediate value fits a word. */
  function GoodRand(x: Long): (r: Long)
    ensures 0 <= r
  {
    var y: Long := if x == 0 then 123459876 else x;
    var hi: Long := Quotient(y, 127773);
    var lo: Long := y - 127773 * hi;
    var a: Long, b: Long := 16807 * lo, 2836 * hi;
    var t: Long := a - b;
    if t < 0 then t + M else t
  }

  /** Multiplication by 16807 modulo 2^31 - 1. */
  lemma {:induction false} GoodRandExact(x: Long)
    requires 0 < x < M
    ensures GoodRand(x) == (16807 * x) % M && 0 < GoodRand(x) < M
  {
    var hi, lo := x / 127773, x % 127773;
    assert Quotient(x, 127773) == hi;
    var t := 16807 * lo - 2836 * hi;
    assert 16807 * x == M * hi + t;
    var r := if t < 0 then t + M else t;
    assert GoodRand(x) == r;
    NoZero(x, hi);
    NoZero(x, hi - 1);
    ModUnique(16807 * x, M, if t < 0 then hi - 1 else hi, r);
  }

  lemma {:induction false} NotMultiple(x: int, z: int)
    requires 0 < x < M
    ensures x != M * z
  {
  }

  /** 16807 and 2^31 - 1 have no common factor: 1407677000 is the inverse of 16807. */
  lemma {:induction false} NoZero(x: int, q: int)
    requires 0 < x < M
    ensures 16807 * x != M * q
  {
    NotMultiple(x, 1407677000 * q - 11017 * x);
  }

  /** The sequence that starts with a seed. */
  ghost function Lehmer(seed: int, n: nat): int {
    if n == 0 then seed else (16807 * Lehmer(seed, n - 1)) % M
  }

  // ---------- additive feedback ----------

  function Deg(kind: nat): nat {
    if kind == 1 then 7 else if kind == 2 then 15 else if kind == 3 then 31 else if kind == 4 then 63 else 0
  }

  function Sep(kind: nat): nat {
    if kind == 1 || kind == 3 then 3 else if kind == 2 || kind == 4 then 1 else 0
  }

  /** The place k words after the place i of the ring. */
  function Place(i: nat, k: nat, deg: nat): nat {
    if i + k < deg then i + k else if i + k < 2 * deg then i + k - deg else 0
  }

  lemma {:induction false} PlaceMod(i: nat, k: nat, deg: nat)
    requires i < deg && k < deg
    ensures Place(i, k, deg) == (i + k) % deg
  {
    ModUnique(i + k, deg, if i + k < deg then 0 else 1, Place(i, k, deg));
  }

  /** A generator: its kind, its words, and its front and rear pointer. */
  datatype Gen = Gen(kind: nat, words: seq<Long>, front: nat, rear: nat)

  /** The front pointer is as many places ahead of the rear pointer as the kind says. */
  ghost predicate Linked(g: Gen) {
    && g.kind < 5
    && (g.kind == 0 ==> |g.words| == 1 && g.front == 0 && g.rear == 0)
    && (g.kind > 0 ==> |g.words| == Deg(g.kind) && g.rear < Deg(g.kind) && g.front == Place(g.rear, Sep(g.kind), Deg(g.kind)))
  }

  /** Advancing both pointers: the rear one is not looked at when the front one wraps. */
  function Moved(front: nat, rear: nat, deg: nat): (nat, nat) {
    if front + 1 >= deg then (0, rear + 1) else if rear + 1 >= deg then (front + 1, 0) else (front + 1, rear + 1)
  }

  function Next(g: Gen): Gen
    requires g.front < |g.words| && g.rear < |g.words|
  {
    if g.kind == 0 then
      g.(words := [GoodRand(g.words[0]) % 0x8000_0000])
    else
      var (f, r) := Moved(g.front, g.rear, |g.words|);
      Gen(g.kind, g.words[g.front := Add(g.words[g.front], g.words[g.rear])], f, r)
  }

  function Drawn(g: Gen): Long
    requires g.front < |g.words| && g.rear < |g.words|
  {
    if g.kind == 0 then GoodRand(g.words[0]) % 0x8000_0000 else Upper(Add(g.words[g.front], g.words[g.rear]))
  }

  /** The pointers keep their distance and never wrap both on one call. */
  lemma {:induction false} NextLinked(g: Gen)
    requires Linked(g)
    ensures g.front < |g.words| && g.rear < |g.words| && Linked(Next(g)) && Next(g).kind == g.kind
    ensures g.kind > 0 ==> Next(g).rear == Place(g.rear, 1, Deg(g.kind)) && Next(g).front == Place(g.front, 1, Deg(g.kind))
    ensures g.kind > 0 ==> !(g.front + 1 == Deg(g.kind) && g.rear + 1 == Deg(g.kind))
  {
  }

  // ---------- the sequence of words ----------

  /** The words of a ring from a place on. */
  ghost function From(words: seq<Long>, front: nat): (w: seq<Long>)
    requires front < |words|
    ensures |w| == |words|
  {
    seq(|words|, k requires 0 <= k < |words| => words[Place(front, k, |words|)])
  }

  /** Replacing the word at the front and moving on. */
  lemma {:induction false} RingSlides(words: seq<Long>, front: nat, rear: nat, sep: nat, sum: Long)
    requires 0 < sep < |words| && rear < |words| && front == Place(rear, sep, |words|)
    ensures From(words[front := sum], Place(front, 1, |words|)) == From(words, front)[1..] + [sum]
    ensures From(words, front)[0] == words[front] && From(words, front)[|words| - sep] == words[rear]
  {
    var v, w := From(words[front := sum], Place(front, 1, |words|)), From(words, front);
    forall k | 0 <= k < |words| ensures v[k] == (w[1..] + [sum])[k] {
    }
  }

  /** The words in the order in which they will be replaced. */
  ghost function Window(g: Gen): (w: seq<Long>)
    requires Linked(g) && g.kind > 0
    ensures |w| == |g.words| && 0 < Sep(g.kind) < |w|
  {
    From(g.words, g.front)
  }

  /** A call replaces the oldest word by its sum with the word that was made sep calls ago. */
  lemma {:induction false} WindowSlides(g: Gen)
    requires Linked(g) && g.kind > 0
    ensures g.front < |g.words| && g.rear < |g.words| && Linked(Next(g))
    ensures Window(Next(g)) == Slid(Window(g), Sep(g.kind)) && Drawn(g) == Upper(Window(Next(g))[|g.words| - 1])
  {
    NextLinked(g);
    RingSlides(g.words, g.front, g.rear, Sep(g.kind), Add(g.words[g.front], g.words[g.rear]));
  }

  /** The trinomial: each word is the sum of two earlier ones. */
  ghost function Word(w: seq<Long>, sep: nat, n: nat): Long
    requires 0 < sep < |w|
    decreases n
  {
    if n < |w| then w[n] else Add(Word(w, sep, n - |w|), Word(w, sep, n - sep))
  }

  ghost function Slid(w: seq<Long>, sep: nat): (v: seq<Long>)
    requires 0 < sep < |w|
    ensures |v| == |w|
  {
    w[1..] + [Add(w[0], w[|w| - sep])]
  }

  ghost function SlidBy(w: seq<Long>, sep: nat, n: nat): (v: seq<Long>)
    requires 0 < sep < |w|
    ensures |v| == |w|
    decreases n
  {
    if n == 0 then w else Slid(SlidBy(w, sep, n - 1), sep)
  }

  lemma {:induction false} SlidWord(w: seq<Long>, sep: nat, n: nat, k: nat)
    requires 0 < sep < |w| && k < |w|
    ensures SlidBy(w, sep, n)[k] == Word(w, sep, n + k)
    decreases n, k
  {
    if n > 0 {
      if k + 1 < |w| {
        SlidWord(w, sep, n - 1, k + 1);
      } else {
        SlidWord(w, sep, n - 1, 0);
        SlidWord(w, sep, n - 1, |w| - sep);
      }
    }
  }

  ghost function After(g: Gen, n: nat): (h: Gen)
    requires Linked(g)
    ensures Linked(h) && h.kind == g.kind
    decreases n
  {
    if n == 0 then g else
      var h := After(g, n - 1);
      NextLinked(h);
      Next(h)
  }

  lemma {:induction false} AfterNext(g: Gen, n: nat)
    requires Linked(g)
    ensures var h := After(g, n); h.front < |h.words| && h.rear < |h.words| && After(g, n + 1) == Next(h)
  {
    NextLinked(After(g, n));
  }

  lemma {:induction false} WindowNext(g: Gen, n: nat)
    requires Linked(g) && g.kind > 0
    ensures Window(After(g, n + 1)) == Slid(Window(After(g, n)), Sep(g.kind))
  {
    AfterNext(g, n);
    WindowSlides(After(g, n));
  }

  /** A sequence of windows, each slid by one from the one before. */
  lemma {:induction false} SlidPath(path: seq<seq<Long>>, sep: nat, n: nat)
    requires n < |path| && 0 < sep < |path[0]|
    requires forall k :: 0 <= k < |path| ==> |path[k]| == |path[0]|
    requires forall k, l :: 0 <= k && l == k + 1 < |path| ==> path[l] == Slid(path[k], sep)
    ensures path[n] == SlidBy(path[0], sep, n)
  {
    if n > 0 {
      SlidPath(path, sep, n - 1);
    }
  }

  lemma {:induction false} WindowAfter(g: Gen, n: nat)
    requires Linked(g) && g.kind > 0
    ensures Window(After(g, n)) == SlidBy(Window(g), Sep(g.kind), n)
  {
    var path := seq(n + 1, k requires 0 <= k => Window(After(g, k)));
    forall k, l | 0 <= k && l == k + 1 < |path| ensures path[l] == Slid(path[k], Sep(g.kind)) {
      WindowNext(g, k);
    }
    SlidPath(path, Sep(g.kind), n);
  }

  /** The number drawn by call n: the upper bits of word n of the recurrence
      y(n) = y(n - deg) + y(n - sep). */
  lemma {:induction false} DrawnExact(g: Gen, n: nat)
    requires Linked(g) && g.kind > 0
    ensures var h := After(g, n);
            && h.front < |h.words| && h.rear < |h.words|
            && Drawn(h) == Upper(Word(Window(g), Sep(g.kind), Deg(g.kind) + n))
  {
    WindowSlides(After(g, n));
    WindowAfter(g, n + 1);
    SlidWord(Window(g), Sep(g.kind), n + 1, Deg(g.kind) - 1);
  }

  /** The trinomials of the four kinds: x^7 + x^3 + 1, x^15 + x + 1, x^31 + x^3 + 1 and
      x^63 + x + 1. The words after the ones in the window are sums modulo 2^32, and the
      numbers drawn are their upper bits. */
  lemma {:induction false} Trinomial(g: Gen, n: nat)
    requires Linked(g) && g.kind > 0
    ensures var (deg, sep) := match g.kind case 1 => (7, 3) case 2 => (15, 1) case 3 => (31, 3) case _ => (63, 1);
            var y := k requires k >= 0 => Word(Window(g), Sep(g.kind), k);
            && |g.words| == deg
            && (y(deg + n) - y(n) - y(deg + n - sep)) % 0x1_0000_0000 == 0
            && var h := After(g, n);
            && h.front < |h.words| && h.rear < |h.words| && Drawn(h) == Upper(y(deg + n))
  {
    DrawnExact(g, n);
    var w, sep := Window(g), Sep(g.kind);
    AddExact(Word(w, sep, n), Word(w, sep, Deg(g.kind) + n - sep));
  }

  lemma {:induction false} NextMod(n: int, deg: int)
    requires deg > 1
    ensures 0 <= n % deg && (n + 1) % deg == Place(n % deg, 1, deg)
  {
    var q, r := n / deg, n % deg;
    if r + 1 == deg {
      assert (q + 1) * deg == q * deg + deg;
      ModUnique(n + 1, deg, q + 1, 0);
    } else {
      ModUnique(n + 1, deg, q, r + 1);
    }
  }

  /** The rear pointer moves by one place with every call. */
  lemma {:induction false} RearAfter(g: Gen, n: nat)
    requires Linked(g) && g.kind > 0 && g.rear == 0
    ensures After(g, n).rear == n % Deg(g.kind)
    decreases n
  {
    if n > 0 {
      RearAfter(g, n - 1);
      NextLinked(After(g, n - 1));
      NextMod(n - 1, Deg(g.kind));
    }
  }

  // ---------- seeding ----------

  /** The words a seed is spread to. */
  ghost function SeedWord(seed: Long, i: nat): Long {
    if i == 0 then seed else GoodRand(SeedWord(seed, i - 1))
  }

  lemma {:induction false} SeedWordExact(seed: Long, i: nat)
    requires 0 < seed < M
    ensures SeedWord(seed, i) == Lehmer(seed, i) && 0 < SeedWord(seed, i) < M
    decreases i
  {
    if i > 0 {
      SeedWordExact(seed, i - 1);
      GoodRandExact(SeedWord(seed, i - 1));
    }
  }

  function Words(kind: nat): nat {
    if kind == 0 then 1 else Deg(kind)
  }

  ghost function Seeded(kind: nat, seed: Long): (g: Gen)
    requires kind < 5
    ensures Linked(g) && g.kind == kind
  {
    Gen(kind, seq(Words(kind), i requires 0 <= i => SeedWord(seed, i)), Sep(kind), 0)
  }

  /** How many numbers are thrown away after seeding. */
  function Discards(kind: nat): nat {
    if kind == 0 then NSHUFF else 10 * Deg(kind)
  }

  /** The discards turn the pointers around ten times. */
  lemma {:induction false} SeededPointers(kind: nat, seed: Long)
    requires 0 < kind < 5
    ensures var g := After(Seeded(kind, seed), Discards(kind)); g.rear == 0 && g.front == Sep(kind)
  {
    RearAfter(Seeded(kind, seed), Discards(kind));
    ModUnique(Discards(kind), Deg(kind), 10, 0);
  }
}
