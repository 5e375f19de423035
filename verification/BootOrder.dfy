/** The boot order list of SHELL/bcfg/bcfg.c: what the commands do to the stored variables. */
module BootOrder {
  import opened EfiBase

  /** Entries the bcfg command can read back: a variable of MAX_ENV_SIZE bytes. */
  const MAX_ENTRIES := 512
  /** Entries its scratch memory has room for: MAX_ENV_SIZE + 32 bytes. */
  const CAPACITY := 528
  const LAST_TARGET := 0xFFFF

  type Order = seq<Char16>

  /** The stored variables: the order list and the options by number. */
  datatype Store = Store(order: Order, options: map<Char16, seq<Byte>>)

  /** A command and whether its writes to the variable store succeed. */
  datatype Command =
    | Add(position: nat, option: seq<Byte>, optionOk: bool, orderOk: bool)
    | Remove(position: nat, deleteOk: bool, orderOk: bool, optionOk: bool)
    | Move(src: nat, dest: nat, orderOk: bool)

  /** The least number above zero that the list does not use. */
  ghost predicate LeastFree(s: Order, t: nat) {
    t > 0 && t !in s && forall k :: 0 < k < t ==> k in s
  }

  lemma LeastFreeUnique(s: Order, t: nat, u: nat)
    requires LeastFree(s, t) && LeastFree(s, u)
    ensures t == u
  {}

  /** Pigeonhole: when `1 .. t - 1` are all in the list, `t` is at most one more than its length. */
  lemma UsedBound(s: Order, t: nat)
    requires t > 0 && forall k :: 0 < k < t ==> k in s
    ensures t <= |s| + 1
  {
    var used := seq(t - 1, i requires 0 <= i < t - 1 => i + 1);
    Pigeonhole(used, s);
  }

  // ----- What a command does

  /** Reading the order variable: one too large for the buffer is taken as empty. */
  function Load(order: Order): Order {
    if |order| <= MAX_ENTRIES then order else []
  }

  /** Where an added entry goes: the position, counted from one, clamped into the list. */
  function AddTarget(position: nat, n: nat): nat {
    if position < 1 then 0 else if position - 1 > n then n else position - 1
  }

  /** Where a moved entry ends up: the destination clamped into the list. */
  function MoveTarget(dest: nat, n: nat): nat
    requires n > 0
  {
    if dest < 1 then 0 else if dest > n then n - 1 else dest - 1
  }

  /** Adding under number `t`. */
  ghost predicate AddsAs(s: Store, c: Command, t: Char16, s': Store)
    requires c.Add?
  {
    var order := Load(s.order);
    LeastFree(order, t) &&
    s' == if !c.optionOk then s
          else Store(if c.orderOk then InsertAt(order, AddTarget(c.position, |order|), t) else s.order,
                     s.options[t := c.option])
  }

  /** One run of the command on the stored variables. */
  ghost predicate Step(s: Store, c: Command, s': Store) {
    var order := Load(s.order);
    match c
    case Add(position, option, optionOk, orderOk) =>
      exists t: Char16 :: AddsAs(s, c, t, s')
    case Remove(position, deleteOk, orderOk, optionOk) =>
      if position < 1 || position > |order| then s' == s
      else s' == Store(
        if orderOk then RemoveAt(order, position - 1) else if deleteOk then [] else s.order,
        if optionOk then s.options - {order[position - 1]} else s.options)
    case Move(src, dest, orderOk) =>
      if src < 1 || src > |order| then s' == s
      else
        var d := MoveTarget(dest, |order|);
        s' == Store(if orderOk then InsertAt(RemoveAt(order, src - 1), d, order[src - 1]) else s.order, s.options)
  }

  /** No number is listed twice and every listed number has an option. */
  ghost predicate Consistent(s: Store) {
    NoDuplicates(s.order) && forall i :: 0 <= i < |s.order| ==> s.order[i] in s.options
  }

  lemma RemoveDistinct(s: Order, p: nat)
    requires NoDuplicates(s) && p < |s|
    ensures NoDuplicates(RemoveAt(s, p)) && s[p] !in RemoveAt(s, p)
  {}

  /** No command, whichever of its writes fail, lists a number twice. */
  lemma StepDistinct(s: Store, c: Command, s': Store)
    requires NoDuplicates(s.order) && Step(s, c, s')
    ensures NoDuplicates(s'.order)
  {
    hide InsertAt, RemoveAt, LeastFree;
    var order := Load(s.order);
    match c
    case Add(position, option, optionOk, orderOk) =>
      var t: Char16 :| AddsAs(s, c, t, s');
      LeastFreeIsNew(order, t);
      InsertDistinct(order, AddTarget(position, |order|), t);
    case Remove(position, deleteOk, orderOk, optionOk) =>
      if 1 <= position <= |order| {
        RemoveDistinct(order, position - 1);
      }
    case Move(src, dest, orderOk) =>
      if 1 <= src <= |order| {
        RemoveDistinct(order, src - 1);
        RemovedLength(order, src - 1);
        InsertDistinct(RemoveAt(order, src - 1), MoveTarget(dest, |order|), order[src - 1]);
      }
  }

  /** The one combination of outcomes that leaves a listed option missing: a removal whose two writes of
      the order both fail while the option is deleted. */
  predicate Safe(s: Store, c: Command) {
    c.Remove? && 1 <= c.position <= |Load(s.order)| ==> c.deleteOk || c.orderOk || !c.optionOk
  }

  /** A command keeps the store consistent exactly when it is safe; all its other writes may fail. */
  lemma StepConsistentIff(s: Store, c: Command, s': Store)
    requires Consistent(s) && Step(s, c, s')
    ensures Consistent(s') <==> Safe(s, c)
  {
    hide InsertAt, RemoveAt, LeastFree, NoDuplicates;
    StepDistinct(s, c, s');
    var order := Load(s.order);
    match c
    case Add(position, option, optionOk, orderOk) =>
      var t: Char16 :| AddsAs(s, c, t, s');
      InsertedListed(s, order, AddTarget(position, |order|), t);
    case Remove(position, deleteOk, orderOk, optionOk) =>
      if 1 <= position <= |order| {
        RemoveDistinct(order, position - 1);
        RemovedListed(s, order, position - 1);
      }
    case Move(src, dest, orderOk) =>
      if 1 <= src <= |order| {
        RemovedListed(s, order, src - 1);
        InsertedListed(s, RemoveAt(order, src - 1), MoveTarget(dest, |order|), order[src - 1]);
      }
  }

  /** The unsafe removal, from a list of one. */
  lemma UnsafeRemoval()
    ensures var s, s' := Store([1], map[1 := []]), Store([1], map[]);
            Consistent(s) && Step(s, Remove(1, false, false, true), s') && !Consistent(s')
  {
    var options: map<Char16, seq<Byte>> := map[1 := []];
    assert options - {1} == map[];
    assert Store([1], map[]).order[0] == 1;
  }

  lemma LeastFreeIsNew(s: Order, t: nat)
    requires LeastFree(s, t)
    ensures t !in s
  {}

  lemma InsertedListed(s: Store, order: Order, p: nat, t: Char16)
    requires p <= |order| && forall i :: 0 <= i < |order| ==> order[i] in s.options
    ensures |InsertAt(order, p, t)| == |order| + 1
    ensures forall i :: 0 <= i <= |order| ==> InsertAt(order, p, t)[i] == t || InsertAt(order, p, t)[i] in s.options
  {}

  lemma RemovedLength(order: Order, p: nat)
    requires p < |order|
    ensures |RemoveAt(order, p)| == |order| - 1
  {}

  lemma RemovedListed(s: Store, order: Order, p: nat)
    requires p < |order| && forall i :: 0 <= i < |order| ==> order[i] in s.options
    ensures |RemoveAt(order, p)| == |order| - 1
    ensures forall i :: 0 <= i < |order| - 1 ==> RemoveAt(order, p)[i] in s.options
  {}

  /** A run of commands: each store follows from the one before it. */
  ghost predicate Run(stores: seq<Store>, commands: seq<Command>) {
    && |stores| == |commands| + 1
    && forall i :: 0 <= i < |commands| ==> Step(stores[i], commands[i], stores[i + 1])
  }

  /** Safety over whole runs: no run, whichever writes fail, lists a number twice. */
  lemma {:induction false} RunDistinct(stores: seq<Store>, commands: seq<Command>, k: nat)
    requires Run(stores, commands) && NoDuplicates(stores[0].order) && k < |stores|
    ensures NoDuplicates(stores[k].order)
  {
    if k > 0 {
      RunDistinct(stores, commands, k - 1);
      StepDistinct(stores[k - 1], commands[k - 1], stores[k]);
    }
  }

  ghost predicate AllConsistent(stores: seq<Store>) {
    forall k :: 0 <= k < |stores| ==> Consistent(stores[k])
  }

  ghost predicate AllSafe(stores: seq<Store>, commands: seq<Command>)
    requires |stores| == |commands| + 1
  {
    forall i :: 0 <= i < |commands| ==> Safe(stores[i], commands[i])
  }

  /** From a consistent store, every store of a run is consistent exactly when every step is safe. */
  lemma RunConsistentIff(stores: seq<Store>, commands: seq<Command>)
    requires Run(stores, commands) && Consistent(stores[0])
    ensures AllConsistent(stores) <==> AllSafe(stores, commands)
  {
    hide Step, Consistent, Safe;
    if AllSafe(stores, commands) {
      forall k | 0 <= k < |stores|
        ensures Consistent(stores[k])
      {
        SafeRun(stores, commands, k);
      }
    }
    if AllConsistent(stores) {
      forall i | 0 <= i < |commands|
        ensures Safe(stores[i], commands[i])
      {
        assert Consistent(stores[i + 1]);
        StepConsistentIff(stores[i], commands[i], stores[i + 1]);
      }
    }
  }

  lemma {:induction false} SafeRun(stores: seq<Store>, commands: seq<Command>, k: nat)
    requires Run(stores, commands) && Consistent(stores[0]) && AllSafe(stores, commands) && k < |stores|
    ensures Consistent(stores[k])
  {
    hide Step, Consistent, Safe;
    if k > 0 {
      SafeRun(stores, commands, k - 1);
      StepConsistentIff(stores[k - 1], commands[k - 1], stores[k]);
    }
  }

  lemma InsertMultiset(s: Order, p: nat, x: Char16)
    requires p <= |s|
    ensures multiset(InsertAt(s, p, x)) == multiset(s) + multiset{x}
  {
    assert s == s[..p] + s[p..];
  }

  lemma RemoveMultiset(s: Order, p: nat)
    requires p < |s|
    ensures |RemoveAt(s, p)| == |s| - 1
    ensures multiset(s) == multiset(RemoveAt(s, p)) + multiset{s[p]}
  {
    assert s == s[..p] + [s[p]] + s[p + 1..];
  }

  /** Removing undoes inserting. */
  lemma RemoveInserted(s: Order, p: nat, x: Char16)
    requires p <= |s|
    ensures var t := InsertAt(s, p, x); |t| == |s| + 1 && t[p] == x && RemoveAt(t, p) == s
  {}

  /** Moving keeps the numbers, and the order of all the others. */
  lemma MoveConserves(s: Store, src: nat, dest: nat, s': Store)
    requires Step(s, Move(src, dest, true), s') && |s.order| <= MAX_ENTRIES
    ensures multiset(s'.order) == multiset(s.order)
    ensures 1 <= src <= |s.order| ==>
              var d := MoveTarget(dest, |s.order|);
              && d < |s'.order| && s'.order[d] == s.order[src - 1]
              && RemoveAt(s'.order, d) == RemoveAt(s.order, src - 1)
  {
    hide InsertAt, RemoveAt;
    if 1 <= src <= |s.order| {
      var o, p, d := s.order, src - 1, MoveTarget(dest, |s.order|);
      RemoveMultiset(o, p);
      InsertMultiset(RemoveAt(o, p), d, o[p]);
      RemoveInserted(RemoveAt(o, p), d, o[p]);
    }
  }

  /** Where an addition puts the new number, position by position: first for positions 0 and 1, at its
      position counted from one within the list, and last beyond it; the others keep their order. */
  lemma AddPlace(s: Store, c: Command, s': Store) returns (t: Char16, at: nat)
    requires c.Add? && c.optionOk && c.orderOk && Step(s, c, s')
    ensures var o := if |s.order| <= 512 then s.order else [];
            && t > 0 && t !in o && (forall k :: 0 < k < t ==> k in o)
            && (c.position <= 1 ==> at == 0)
            && (1 <= c.position <= |o| + 1 ==> at == c.position - 1)
            && (c.position > |o| ==> at == |o|)
            && at <= |o| && s'.order == o[..at] + [t] + o[at..]
            && s'.options == s.options[t := c.option]
  {
    t :| AddsAs(s, c, t, s');
    at := AddTarget(c.position, |Load(s.order)|);
  }

  /** What a removal takes away. */
  lemma RemovePlace(s: Store, c: Command, s': Store)
    requires c.Remove? && c.orderOk && c.optionOk && Step(s, c, s') && |s.order| <= 512
    ensures 1 <= c.position <= |s.order| ==>
              && s'.order == s.order[..c.position - 1] + s.order[c.position..]
              && s'.options == s.options - {s.order[c.position - 1]}
    ensures !(1 <= c.position <= |s.order|) ==> s' == s
  {}

  /** Where a move puts the number, and that the others keep their order. */
  lemma MovePlace(s: Store, c: Command, s': Store) returns (at: nat)
    requires c.Move? && c.orderOk && Step(s, c, s') && 1 <= c.src <= |s.order| <= 512
    ensures c.dest <= 1 ==> at == 0
    ensures 1 <= c.dest <= |s.order| ==> at == c.dest - 1
    ensures c.dest > |s.order| ==> at == |s.order| - 1
    ensures |s'.order| == |s.order| && at < |s.order| && s'.order[at] == s.order[c.src - 1]
    ensures s'.order[..at] + s'.order[at + 1..] == s.order[..c.src - 1] + s.order[c.src..]
    ensures s'.options == s.options
  {
    at := MoveTarget(c.dest, |s.order|);
    RemovedLength(s.order, c.src - 1);
    RemoveInserted(RemoveAt(s.order, c.src - 1), at, s.order[c.src - 1]);
  }

  /** What stays stored when writes fail: an addition without its option does nothing, one without the order
      leaves an option that is not listed; a removal empties the order it could delete but not write anew, and
      drops the option if it can; a move without the order does nothing. */
  lemma FailedWrites(s: Store, c: Command, s': Store)
    requires Step(s, c, s') && |s.order| <= 512
    ensures c.Add? && !c.optionOk ==> s' == s
    ensures c.Add? && c.optionOk && !c.orderOk ==>
              s'.order == s.order &&
              exists t: Char16 :: t > 0 && t !in s.order && s'.options == s.options[t := c.option]
    ensures c.Remove? && 1 <= c.position <= |s.order| && !c.orderOk ==>
              s'.order == if c.deleteOk then [] else s.order
    ensures c.Remove? && 1 <= c.position <= |s.order| ==>
              s'.options == if c.optionOk then s.options - {s.order[c.position - 1]} else s.options
    ensures c.Move? && !c.orderOk ==> s' == s
  {
    if c.Add? {
      var t: Char16 :| AddsAs(s, c, t, s');
    }
  }

  /** The limit is real: adding to a full list leaves one the next command reads as empty. */
  lemma OverfullOrderIsLost(s: Store, c: Command, s': Store)
    requires |s.order| == 512 && c.Add? && c.optionOk && c.orderOk && Step(s, c, s')
    ensures |s'.order| == 513 && Load(s'.order) == []
  {}

  /** A successful addition leaves a list the next command reads as stored exactly when the list it read
      was not full. */
  lemma AddReadableIff(s: Store, c: Command, s': Store)
    requires c.Add? && c.optionOk && c.orderOk && Step(s, c, s')
    ensures Load(s'.order) == s'.order <==> |Load(s.order)| < 512
  {}

  /** A successful removal or move never leaves more than it read. */
  lemma OthersReadable(s: Store, c: Command, s': Store)
    requires !c.Add? && c.orderOk && Step(s, c, s') && |s.order| <= 512
    ensures Load(s'.order) == s'.order
  {}

  lemma MoveOutOfRange(s: Store, src: nat, dest: nat, orderOk: bool)
    ensures src < 1 || src > |Load(s.order)| ==> Step(s, Move(src, dest, orderOk), s)
  {}

  lemma MoveInRange(s: Store, src: nat, dest: nat, orderOk: bool)
    requires 1 <= src <= |Load(s.order)|
    ensures var o := Load(s.order);
            && |RemoveAt(o, src - 1)| == |o| - 1
            && var moved := InsertAt(RemoveAt(o, src - 1), MoveTarget(dest, |o|), o[src - 1]);
               Step(s, Move(src, dest, orderOk), if orderOk then s.(order := moved) else s)
  {}

  // ----- The command itself

  lemma OpenedGap(was: Order, now: Order, p: nat, n: nat, x: Char16)
    requires p < n <= |was| == |now| && now[p] == x
    requires forall k :: 0 <= k < p ==> now[k] == was[k]
    requires forall k :: p < k < n ==> now[k] == was[k - 1]
    ensures now[..n] == InsertAt(was[..n - 1], p, x)
  {}

  lemma ClosedGap(was: Order, now: Order, p: nat, n: nat)
    requires p < n <= |was| == |now|
    requires forall k :: 0 <= k < p ==> now[k] == was[k]
    requires forall k :: p <= k < n - 1 ==> now[k] == was[k + 1]
    ensures now[..n - 1] == RemoveAt(was[..n], p)
  {}

  /** The globals of the command and the variable store it works on. */
  class BootConfig {
    const order: array<Char16>
    var count: nat
    var store: Store

    ghost predicate Valid()
      reads this
    {
      order.Length == CAPACITY && count <= CAPACITY
    }

    ghost function Entries(): Order
      reads this, order
      requires Valid()
    {
      order[..count]
    }

    constructor (initial: Store)
      ensures Valid() && store == initial && fresh(order)
    {
      order := new Char16[CAPACITY];
      count := 0;
      store := initial;
    }

    /** Reads the order variable into the scratch memory. */
    method ReadOrder()
      requires Valid()
      modifies this`count, order
      ensures Valid() && Entries() == Load(store.order)
    {
      if |store.order| > MAX_ENTRIES {
        count := 0;
        return;
      }
      count := |store.order|;
      for i := 0 to count
        invariant order[..i] == store.order[..i]
        invariant count == |store.order|
      {
        order[i] := store.order[i];
      }
    }

    /** The brute force search for a free option number. */
    method FindTarget() returns (target: nat)
      requires Valid() && count <= MAX_ENTRIES
      ensures target < LAST_TARGET && LeastFree(Entries(), target)
    {
      target := 1;
      while target < LAST_TARGET
        invariant 1 <= target <= LAST_TARGET
        invariant forall k :: 0 < k < target ==> k in Entries()
      {
        UsedBound(Entries(), target);
        var found := true;
        var index := 0;
        while index < count
          invariant 0 <= index <= count
          invariant found && target !in order[..index]
        {
          if order[index] == target {
            found := false;
            break;
          }
          index := index + 1;
        }
        if found {
          break;
        }
        target := target + 1;
      }
      UsedBound(Entries(), target);
    }

    /** Moves the entries from `p` on up by one, within the first `n`, and puts `x` at `p`. */
    method OpenGap(p: nat, n: nat, x: Char16)
      requires p < n <= order.Length
      modifies order
      ensures order[..n] == InsertAt(old(order[..n - 1]), p, x)
    {
      ghost var was := order[..];
      var index := n - 1;
      while index > p
        invariant p <= index < n
        invariant forall k :: 0 <= k <= index ==> order[k] == was[k]
        invariant forall k :: index < k < n ==> order[k] == was[k - 1]
      {
        order[index] := order[index - 1];
        index := index - 1;
      }
      order[p] := x;
      OpenedGap(was, order[..], p, n, x);
    }

    /** Closes the gap at `p` among the first `n` entries. */
    method CloseGap(p: nat, n: nat)
      requires p < n <= order.Length
      modifies order
      ensures order[..n - 1] == RemoveAt(old(order[..n]), p)
    {
      ghost var was := order[..];
      var index := p;
      while index < n - 1
        invariant p <= index <= n - 1
        invariant forall k :: 0 <= k < p ==> order[k] == was[k]
        invariant forall k :: p <= k < index ==> order[k] == was[k + 1]
        invariant forall k :: index <= k < n ==> order[k] == was[k]
      {
        order[index] := order[index + 1];
        index := index + 1;
      }
      ClosedGap(was, order[..], p, n);
    }

    method AddEntry(position: nat, option: seq<Byte>, optionOk: bool, orderOk: bool)
      requires Valid() && count <= MAX_ENTRIES && Entries() == Load(store.order)
      modifies this, order
      ensures Valid() && Step(old(store), Add(position, option, optionOk, orderOk), store)
    {
      ghost var entries := Entries();
      var p := position;
      if p < 1 {
        p := 1;
      }
      p := p - 1;
      if p > count {
        p := count;
      }
      var target := FindTarget();
      assert LeastFree(entries, target);
      if !optionOk {
        assert AddsAs(old(store), Add(position, option, optionOk, orderOk), target, store);
        return;
      }
      store := store.(options := store.options[target := option]);
      count := count + 1;
      OpenGap(p, count, target);
      if orderOk {
        store := store.(order := order[..count]);
      }
      assert AddsAs(old(store), Add(position, option, optionOk, orderOk), target, store);
    }

    /** Three writes: the order is deleted, then written anew, then the option is deleted; the outcomes are
        not looked at in between. */
    method RemoveEntry(position: nat, deleteOk: bool, orderOk: bool, optionOk: bool)
      requires Valid() && Entries() == Load(store.order)
      modifies this, order
      ensures Valid() && Step(old(store), Remove(position, deleteOk, orderOk, optionOk), store)
    {
      if position < 1 || position > count {
        return;
      }
      var target := order[position - 1];
      CloseGap(position - 1, count);
      count := count - 1;
      if deleteOk {
        store := store.(order := []);
      }
      if orderOk {
        store := store.(order := order[..count]);
      }
      if optionOk {
        store := store.(options := store.options - {target});
      }
    }

    method MoveEntry(src: nat, dest: nat, orderOk: bool)
      requires Valid() && Entries() == Load(store.order)
      modifies this, order
      ensures Valid() && Step(old(store), Move(src, dest, orderOk), store)
    {
      hide InsertAt, RemoveAt, Step;
      ghost var before := store;
      MoveOutOfRange(store, src, dest, orderOk);
      if src < 1 || src > count {
        return;
      }
      var d := dest;
      if d < 1 {
        d := 1;
      }
      if d > count {
        d := count;
      }
      d := d - 1;
      var target := order[src - 1];
      CloseGap(src - 1, count);
      OpenGap(d, count, target);
      MoveInRange(before, src, dest, orderOk);
      if orderOk {
        store := store.(order := order[..count]);
      }
    }

    /** One invocation: read the variables, then do what is asked. */
    method Execute(c: Command)
      requires Valid()
      modifies this, order
      ensures Valid() && Step(old(store), c, store)
    {
      ReadOrder();
      match c
      case Add(position, option, optionOk, orderOk) => AddEntry(position, option, optionOk, orderOk);
      case Remove(position, deleteOk, orderOk, optionOk) => RemoveEntry(position, deleteOk, orderOk, optionOk);
      case Move(src, dest, orderOk) => MoveEntry(src, dest, orderOk);
    }
  }
}
