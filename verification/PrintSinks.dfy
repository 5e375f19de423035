/** Where formatted text goes: the console, a fixed buffer (SPrint) or a growing one (PoolPrint, CatPrint). */
module PrintSinks {
  import opened EfiBase

  const PRINT_STRING_LEN := 1024

  datatype Kind = Console | Fixed | Growing

  function Min(a: nat, b: nat): nat { if a < b then a else b }

  /** All the text of a list of strings. */
  ghost function Flatten(ts: seq<Text>): Text {
    if ts == [] then [] else Flatten(ts[..|ts| - 1]) + ts[|ts| - 1]
  }

  lemma FlattenAppend(ts: seq<Text>, t: Text)
    ensures Flatten(ts + [t]) == Flatten(ts) + t
  {}

  lemma {:induction false} FlattenConcat(a: seq<Text>, b: seq<Text>)
    ensures Flatten(a + b) == Flatten(a) + Flatten(b)
  {
    if b == [] {
      assert a + b == a;
    } else {
      var last := b[|b| - 1];
      FlattenConcat(a, b[..|b| - 1]);
      assert b == b[..|b| - 1] + [last] && a + b == (a + b[..|b| - 1]) + [last];
      FlattenAppend(a + b[..|b| - 1], last);
      ConcatAssociative(Flatten(a), Flatten(b[..|b| - 1]), last);
    }
  }

  /** Characters of the total that stay visible in a fixed buffer: the place of the NUL. */
  function Shown(len: nat, maxlen: nat): nat {
    if maxlen == 0 then 0 else Min(len, maxlen - 1)
  }

  /** A fixed buffer: the longest prefix of the text that leaves room for a NUL below the limit, and the NUL. */
  ghost predicate FixedHolds(s: seq<Char16>, len: nat, maxlen: nat, total: Text, written: bool) {
    && len == Min(|total|, maxlen) && len <= |s|
    && s[..Shown(len, maxlen)] == total[..Shown(len, maxlen)]
    && (written && maxlen > 0 ==> Shown(len, maxlen) < |s| && s[Shown(len, maxlen)] == 0)
  }

  /** A growing buffer: the whole text and a NUL; nothing at all before the first growth. */
  ghost predicate GrowingHolds(s: seq<Char16>, len: nat, maxlen: nat, total: Text, written: bool) {
    && maxlen == |s| && len <= maxlen
    && s[..len] == total
    && if written then len < maxlen && s[len] == 0 else maxlen == 0
  }

  /** The limit of SPrint, computed in words: below two bytes it wraps around to the largest word. */
  function Limit(strSize: nat, modulus: nat): (limit: nat)
    requires strSize < modulus
    ensures limit == if strSize < 2 then modulus - 1 else strSize / 2 - 1
  {
    if strSize < 2 then
      WrapsBelowZero(modulus);
      (strSize / 2 - 1) % modulus
    else
      BelowModulus(strSize / 2 - 1, modulus);
      (strSize / 2 - 1) % modulus
  }

  lemma WrapsBelowZero(m: nat)
    requires m > 0
    ensures -1 % m == m - 1
  {}

  lemma BelowModulus(x: nat, m: nat)
    requires x < m
    ensures x % m == x
  {}

  /** POOL_PRINT, with the strings it has been given.  A growing buffer that cannot grow is dropped with
      all it held; `dropped` counts the strings that went that way. */
  class Sink {
    const kind: Kind
    var str: array<Char16>
    var len: nat
    var maxlen: nat
    ghost var log: seq<Text>
    ghost var dropped: nat

    ghost predicate Valid()
      reads this, str
    {
      && dropped <= |log|
      && match kind
         case Console => true
         case Fixed => FixedHolds(str[..], len, maxlen, Flatten(log), log != [])
         case Growing => GrowingHolds(str[..], len, maxlen, Flatten(log[dropped..]), dropped < |log|)
    }

    /** A fixed buffer has room for a text of `total` characters, cut off at the limit. */
    ghost predicate HasRoom(total: nat)
      reads this
    {
      kind == Fixed ==> maxlen <= str.Length || total < str.Length
    }

    /** A console, or an empty pool to grow. */
    constructor Empty(k: Kind)
      requires k != Fixed
      ensures Valid() && kind == k && log == [] && dropped == 0 && len == 0 && fresh(str)
    {
      kind := k;
      str := new Char16[0];
      len, maxlen, log, dropped := 0, 0, [], 0;
    }

    /** The caller's buffer of `StrSize` bytes; a size of zero means there is no limit. */
    constructor ForBuffer(buffer: array<Char16>, strSize: nat, modulus: nat)
      requires strSize < modulus
      ensures Valid() && kind == Fixed && log == [] && str == buffer
      ensures maxlen == if strSize < 2 then modulus - 1 else strSize / 2 - 1
    {
      kind := Fixed;
      str := buffer;
      len, maxlen, log, dropped := 0, Limit(strSize, modulus), [], 0;
    }

    /** The copy and termination of _SPrint, cut off at the limit. */
    method Append(text: Text)
      requires len <= maxlen && len <= str.Length
      requires maxlen <= str.Length || len + |text| < str.Length
      modifies this`len, str
      ensures len == Min(old(len) + |text|, maxlen) && len <= str.Length
      ensures maxlen > 0 ==> Shown(len, maxlen) < str.Length && str[Shown(len, maxlen)] == 0
      ensures var n := Shown(len, maxlen); str[..n] == (old(str[..len]) + text)[..n]
    {
      var n := |text|;
      if len + n > maxlen {
        n := maxlen - len;
      }
      ghost var want := str[..len] + text;
      for i := 0 to n
        invariant str[..len + i] == want[..len + i]
        modifies str
      {
        str[len + i] := text[i];
      }
      len := len + n;
      assert str[..len] == want[..len];
      if len < maxlen {
        str[len] := 0;
      } else if maxlen > 0 {
        str[maxlen - 1] := 0;
      }
      ghost var k := Shown(len, maxlen);
      assert str[..k] == want[..k];
    }

    /** The growth of _PoolPrint: a larger pool with the text so far, or nothing at all. */
    method Grow(newlen: nat) returns (ok: bool)
      requires len <= maxlen == str.Length <= newlen
      modifies this`str, this`len, this`maxlen
      ensures maxlen == str.Length && fresh(str)
      ensures ok ==> maxlen == newlen && len == old(len) && str[..len] == old(str[..len])
      ensures !ok ==> maxlen == 0 && len == 0
    {
      ok := *;
      if !ok {
        str := new Char16[0];
        len, maxlen := 0, 0;
        return;
      }
      var pool := new Char16[newlen];
      for i := 0 to len
        invariant pool[..i] == str[..i]
        modifies pool
      {
        pool[i] := str[i];
      }
      str := pool;
      maxlen := newlen;
    }

    /** The text of _PoolPrint goes to a pool with room for it and its NUL. */
    method PoolAppend(text: Text)
      requires Valid() && kind == Growing
      modifies this`str, this`len, this`maxlen, this`dropped, this`log, str
      ensures Valid() && log == old(log) + [text]
      ensures dropped == old(dropped) || dropped == |log|
      ensures str == old(str) || fresh(str)
    {
      hide Flatten;
      var newlen := len + |text| + 1;
      ghost var held := log[dropped..];
      FlattenAppend(held, text);
      assert (log + [text])[dropped..] == held + [text];
      if newlen > maxlen {
        var ok := Grow(newlen + PRINT_STRING_LEN);
        if !ok {
          Append(text);
          log := log + [text];
          dropped := |log|;
          NothingHeld(log);
          return;
        }
      }
      Append(text);
      assert (Flatten(held) + text)[..len] == Flatten(held) + text;
      log := log + [text];
    }

    /** Takes one string from the print engine. */
    method Output(text: Text)
      requires Valid() && HasRoom(|Flatten(log)| + |text|)
      modifies this, str
      ensures Valid() && log == old(log) + [text]
      ensures dropped == old(dropped) || dropped == |log|
      ensures str == old(str) || fresh(str)
      ensures kind == Fixed ==> str == old(str) && maxlen == old(maxlen)
    {
      hide Flatten;
      if kind == Growing {
        PoolAppend(text);
      } else if kind == Fixed {
        FlattenAppend(log, text);
        ghost var was, len0 := str[..], len;
        Append(text);
        FixedStep(was, str[..], len0, len, maxlen, Flatten(log), text, log != []);
        log := log + [text];
      } else {
        log := log + [text];
      }
    }
  }

  lemma NothingHeld(log: seq<Text>)
    ensures log[|log|..] == [] && Flatten(log[|log|..]) == []
  {}

  lemma FixedStep(
    was: seq<Char16>, now: seq<Char16>, len: nat, len': nat, maxlen: nat, total: Text, text: Text, written: bool)
    requires FixedHolds(was, len, maxlen, total, written) && |now| == |was|
    requires len' == Min(len + |text|, maxlen) && len' <= |now|
    requires maxlen > 0 ==> Shown(len', maxlen) < |now| && now[Shown(len', maxlen)] == 0
    requires var n := Shown(len', maxlen); now[..n] == (was[..len] + text)[..n]
    ensures FixedHolds(now, len', maxlen, total + text, true)
  {}
}
