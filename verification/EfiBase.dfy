/** The machine types shared by the models, and the counting argument they rest on. */
module EfiBase {

  /** UINT8 and CHAR16: integers with the width of the C types. */
  type Byte = x: int | 0 <= x < 0x100
  type Char16 = x: int | 0 <= x < 0x10000

  /** Handles are addresses; zero is NULL. */
  type Handle = nat
  const NULL: Handle := 0

  /** A text is the content of a NUL-terminated CHAR16 string, the terminator left off. */
  type Text = seq<Char16>

  datatype Option<+T> = None | Some(value: T)

  ghost predicate NulFree(t: Text) {
    forall i :: 0 <= i < |t| ==> t[i] != 0
  }

  ghost predicate NoDuplicates<T>(s: seq<T>) {
    forall i, j :: 0 <= i < j < |s| ==> s[i] != s[j]
  }

  // ----- Sequences

  function InsertAt<T>(s: seq<T>, p: nat, x: T): seq<T>
    requires p <= |s|
  {
    s[..p] + [x] + s[p..]
  }

  function RemoveAt<T>(s: seq<T>, p: nat): seq<T>
    requires p < |s|
  {
    s[..p] + s[p + 1..]
  }

  lemma InsertDistinct<T>(s: seq<T>, p: nat, x: T)
    requires NoDuplicates(s) && p <= |s| && x !in s
    ensures NoDuplicates(InsertAt(s, p, x))
  {}

  lemma ConcatAssociative<T>(a: seq<T>, b: seq<T>, c: seq<T>)
    ensures a + (b + c) == (a + b) + c
  {}

  // ----- Reading memory

  /** A read of a terminated string: its content, then the NUL. */
  function At(t: Text, i: nat): Char16
    requires i <= |t|
  {
    if i < |t| then t[i] else 0
  }

  /** Little-endian reads. */
  function Read16(m: seq<Byte>, o: nat): Char16
    requires o + 2 <= |m|
  {
    var low: int, high: int := m[o], m[o + 1];
    low + high * 0x100
  }

  function Read32(m: seq<Byte>, o: nat): nat
    requires o + 4 <= |m|
  {
    Read16(m, o) + Read16(m, o + 2) * 0x10000
  }

  // ----- Arithmetic

  lemma NonNegative(x: nat, y: nat)
    ensures x * y >= 0
  {}

  function Pow2(n: nat): (r: nat)
    ensures r > 0
  {
    if n == 0 then 1 else 2 * Pow2(n - 1)
  }

  lemma {:induction false} Pow2Add(a: nat, b: nat)
    ensures Pow2(a + b) == Pow2(a) * Pow2(b)
  {
    if a > 0 {
      Pow2Add(a - 1, b);
      assert Pow2(a + b) == 2 * (Pow2(a - 1) * Pow2(b)) == (2 * Pow2(a - 1)) * Pow2(b);
    }
  }

  lemma {:induction false} MulGap(a: nat, q: nat, q': nat)
    requires q < q'
    ensures q' * a >= q * a + a
  {
    if q + 1 == q' {
      assert q' * a == q * a + a;
    } else {
      MulGap(a, q, q' - 1);
      assert q' * a == (q' - 1) * a + a;
    }
  }

  /** Two ways to write a number as a multiple of `a` and a remainder below it are the same way. */
  lemma SplitUnique(a: nat, q: nat, r: nat, q': nat, r': nat)
    requires q * a + r == q' * a + r' && r < a && r' < a
    ensures q == q' && r == r'
  {
    if q < q' {
      MulGap(a, q, q');
    } else if q' < q {
      MulGap(a, q', q);
    }
  }

  /** Dividing a natural number gives a natural number. */
  lemma QuotientNatural(x: nat, a: nat)
    requires a > 0
    ensures x / a >= 0
  {}

  lemma DivModSum(x: nat, a: nat)
    requires a > 0
    ensures x == x / a * a + x % a
  {}

  lemma DivModUnique(x: nat, a: nat, q: nat, r: nat)
    requires x == q * a + r && r < a
    ensures x / a == q && x % a == r
  {
    SplitUnique(a, q, r, x / a, x % a);
  }

  // ----- Counting

  /** A duplicate-free sequence has as many members as entries. */
  lemma {:induction false} DistinctCardinality<T>(s: seq<T>)
    requires NoDuplicates(s)
    ensures |set x | x in s| == |s|
  {
    if s != [] {
      var rest := s[..|s| - 1];
      var last := s[|s| - 1];
      DistinctCardinality(rest);
      assert (set x | x in s) == (set x | x in rest) + {last};
    }
  }

  lemma {:induction false} SubsetCardinality<T>(a: set<T>, b: set<T>)
    requires a <= b
    ensures |a| <= |b|
  {
    if a != {} {
      var x :| x in a;
      SubsetCardinality(a - {x}, b - {x});
    }
  }

  /** Pigeonhole: distinct entries drawn from the entries of `pool` are at most as many. */
  lemma Pigeonhole<T>(s: seq<T>, pool: seq<T>)
    requires NoDuplicates(s)
    requires forall i :: 0 <= i < |s| ==> s[i] in pool
    ensures |s| <= |pool|
  {
    DistinctCardinality(s);
    SubsetCardinality(set x | x in s, set x | x in pool);
    MembersBound(pool);
  }

  lemma {:induction false} MembersBound<T>(s: seq<T>)
    ensures |set x | x in s| <= |s|
  {
    if s != [] {
      var rest := s[..|s| - 1];
      MembersBound(rest);
      assert (set x | x in s) == (set x | x in rest) + {s[|s| - 1]};
    }
  }
}
