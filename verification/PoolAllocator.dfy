/**
 * pool_allocator: freed blocks are kept as budgets and handed out again to requests they fit. Two locks guard the two
 * lists; a block is in its thread's hands between them.
 */
module PoolAllocator {
  import opened Basics

  const WORD: nat := 0x1_0000_0000_0000_0000

  type Address = nat

  datatype Block = Block(size: nat, ptr: Address)

  /** The test on a budget of size `bs`, with the product in 64 bits. */
  predicate Fits(bs: nat, size: nat, ratio: nat) { bs >= size && (bs * ratio) % WORD / 256 <= size }

  /** A request for which an overflowing product lets the block pass, if there is one. */
  function Fooled(bs: nat, ratio: nat): nat { (bs * ratio) % WORD / 256 }

  /** The test keeps blocks of this size from requests too small for them exactly as long as the product does not overflow. */
  lemma FitsExactly(bs: nat, ratio: nat)
    requires bs < WORD && ratio <= 256
    ensures (forall size: nat :: Fits(bs, size, ratio) ==> bs * ratio < 256 * (size + 1)) <==> bs * ratio < 0x1_0000_0000_0000_0000
    ensures bs * ratio >= WORD ==> Fits(bs, Fooled(bs, ratio), ratio) && bs * ratio >= 256 * (Fooled(bs, ratio) + 1)
    ensures forall size: nat :: Fits(bs, size, ratio) <==> size <= bs && bs * ratio % 0x1_0000_0000_0000_0000 < 256 * (size + 1)
  {
    var product, size := bs * ratio, Fooled(bs, ratio);
    if product >= WORD {
      assert bs >= WORD / 256 by { assert product <= bs * 256; }
      assert size + 1 <= WORD / 256 && 256 * (size + 1) <= WORD;
      assert Fits(bs, size, ratio);
    }
  }

  /** The first budget from `i` on that fits, or |budgets|. */
  function FirstFit(budgets: seq<Block>, size: nat, ratio: nat, i: nat): (k: nat)
    requires i <= |budgets|
    ensures i <= k <= |budgets| && forall j :: i <= j < k ==> !Fits(budgets[j].size, size, ratio)
    ensures k < |budgets| ==> Fits(budgets[k].size, size, ratio)
    decreases |budgets| - i
  {
    if i == |budgets| || Fits(budgets[i].size, size, ratio) then i else FirstFit(budgets, size, ratio, i + 1)
  }

  /** The first payout from `i` on of this address, or |payouts|. */
  function FindPtr(payouts: seq<Block>, ptr: Address, i: nat): (k: nat)
    requires i <= |payouts|
    ensures i <= k <= |payouts| && (forall j :: i <= j < k ==> payouts[j].ptr != ptr) && (k < |payouts| ==> payouts[k].ptr == ptr)
    decreases |payouts| - i
  {
    if i == |payouts| || payouts[i].ptr == ptr then i else FindPtr(payouts, ptr, i + 1)
  }

  /** The bodies that run under one lock. */
  class PoolAllocator {
    var size_compare_ratio: nat
    var budgets: seq<Block>
    var payouts: seq<Block>

    constructor ()
      ensures size_compare_ratio == 192 && budgets == [] && payouts == []
    {
      size_compare_ratio, budgets, payouts := 192, [], [];
    }

    /** fastMalloc, under budgets_lock: takes the first budget that fits. */
    method TakeBudget(size: nat) returns (taken: Option<Block>)
      modifies this`budgets
      ensures var k := FirstFit(old(budgets), size, size_compare_ratio, 0);
              if k < |old(budgets)| then taken == Some(old(budgets)[k]) && budgets == Without(old(budgets), k)
              else taken == None && budgets == old(budgets)
    {
      var it := 0;
      while it < |budgets|
        invariant it <= |budgets| && FirstFit(budgets, size, size_compare_ratio, 0) == FirstFit(budgets, size, size_compare_ratio, it)
      {
        var bs := budgets[it].size;
        if bs >= size && (bs * size_compare_ratio) % WORD / 256 <= size {
          taken := Some(budgets[it]);
          budgets := budgets[..it] + budgets[it + 1..];
          return;
        }
        it := it + 1;
      }
      return None;
    }

    /** fastMalloc, under payouts_lock. */
    method PushPayout(b: Block)
      modifies this`payouts
      ensures payouts == old(payouts) + [b]
    {
      payouts := payouts + [b];
    }

    /** fastFree, under payouts_lock: takes the payout of this address, if there is one. */
    method TakePayout(ptr: Address) returns (taken: Option<Block>)
      modifies this`payouts
      ensures var k := FindPtr(old(payouts), ptr, 0);
              if k < |old(payouts)| then taken == Some(old(payouts)[k]) && payouts == Without(old(payouts), k)
              else taken == None && payouts == old(payouts)
    {
      var it := 0;
      while it < |payouts|
        invariant it <= |payouts| && FindPtr(payouts, ptr, 0) == FindPtr(payouts, ptr, it)
      {
        if payouts[it].ptr == ptr {
          taken := Some(payouts[it]);
          payouts := payouts[..it] + payouts[it + 1..];
          return;
        }
        it := it + 1;
      }
      return None;
    }

    /** fastFree, under budgets_lock. */
    method PushBudget(b: Block)
      modifies this`budgets
      ensures budgets == old(budgets) + [b]
    {
      budgets := budgets + [b];
    }

    /** clear, under budgets_lock: the addresses to free, in order. */
    method Clear() returns (freed: seq<Address>)
      modifies this`budgets
      ensures budgets == [] && |freed| == |old(budgets)| && forall i :: 0 <= i < |freed| ==> freed[i] == old(budgets)[i].ptr
    {
      freed := [];
      for it := 0 to |budgets|
        invariant |freed| == it && forall i :: 0 <= i < it ==> freed[i] == budgets[i].ptr
      {
        freed := freed + [budgets[it].ptr];
      }
      budgets := [];
    }
  }

  /** Where a thread stands in a call. */
  datatype Phase =
    | Idle
    | Searching(want: nat)
    | Allocating(want: nat)
    | Recording(block: Block, want: nat)
    | Delivering(ptr: Address, want: nat)
    | Freeing(ptr: Address)
    | Shelving(block: Block)
    | Wild(ptr: Address)

  /** The allocator, the heap under it with the allocated sizes, the threads, and what the clients hold. */
  datatype State = State(ratio: nat, budgets: seq<Block>, payouts: seq<Block>, heap: map<Address, nat>,
                         threads: map<nat, Phase>, held: set<Address>)

  datatype Step =
    | BeginMalloc(thread: nat, size: nat) | Search(thread: nat) | HeapAlloc(thread: nat, ptr: Address)
    | Record(thread: nat) | Deliver(thread: nat)
    | BeginFree(thread: nat, ptr: Address) | Unrecord(thread: nat) | Shelve(thread: nat) | FreeWild(thread: nat)
    | Clear(thread: nat) | SetRatio(thread: nat, ratio: nat)

  /** Clients free only what they hold; the heap hands out an address that is not in use. */
  predicate Enabled(s: State, step: Step) {
    step.thread in s.threads &&
    var p := s.threads[step.thread];
    match step
    case BeginMalloc(_, size) => p.Idle? && size < WORD
    case Search(_) => p.Searching?
    case HeapAlloc(_, ptr) => p.Allocating? && ptr !in s.heap
    case Record(_) => p.Recording?
    case Deliver(_) => p.Delivering?
    case BeginFree(_, ptr) => p.Idle? && ptr in s.held
    case Unrecord(_) => p.Freeing?
    case Shelve(_) => p.Shelving?
    case FreeWild(_) => p.Wild?
    case Clear(_) => p.Idle?
    case SetRatio(_, ratio) => p.Idle? && ratio <= 256
  }

  function Addresses(s: seq<Block>): set<Address> { set b | b in s :: b.ptr }

  function Apply(s: State, step: Step): State
    requires Enabled(s, step)
  {
    var t, p := step.thread, s.threads[step.thread];
    match step
    case BeginMalloc(_, size) => s.(threads := s.threads[t := Searching(size)])
    case Search(_) =>
      var k := FirstFit(s.budgets, p.want, s.ratio, 0);
      if k < |s.budgets| then s.(budgets := Without(s.budgets, k), threads := s.threads[t := Recording(s.budgets[k], p.want)])
      else s.(threads := s.threads[t := Allocating(p.want)])
    case HeapAlloc(_, ptr) =>
      s.(heap := s.heap[ptr := p.want], threads := s.threads[t := Recording(Block(p.want, ptr), p.want)])
    case Record(_) => s.(payouts := s.payouts + [p.block], threads := s.threads[t := Delivering(p.block.ptr, p.want)])
    case Deliver(_) => s.(held := s.held + {p.ptr}, threads := s.threads[t := Idle])
    case BeginFree(_, ptr) => s.(held := s.held - {ptr}, threads := s.threads[t := Freeing(ptr)])
    case Unrecord(_) =>
      var k := FindPtr(s.payouts, p.ptr, 0);
      if k < |s.payouts| then s.(payouts := Without(s.payouts, k), threads := s.threads[t := Shelving(s.payouts[k])])
      else s.(threads := s.threads[t := Wild(p.ptr)])
    case Shelve(_) => s.(budgets := s.budgets + [p.block], threads := s.threads[t := Idle])
    case FreeWild(_) => s.(heap := s.heap - {p.ptr}, threads := s.threads[t := Idle])
    case Clear(_) => s.(heap := s.heap - Addresses(s.budgets), budgets := [])
    case SetRatio(_, ratio) => s.(ratio := ratio)
  }

  /** Where a live block is; a block in the payouts is with a client, on its way to one, or on its way back. */
  datatype Home = Budget | Hand(thread: nat) | WithClient | Outgoing(thread: nat) | Returning(thread: nat)

  predicate InPayouts(h: Home) { h.WithClient? || h.Outgoing? || h.Returning? }

  /** The list holds the live blocks whose home says so, once each, with their allocated sizes. */
  ghost predicate ListHolds(s: seq<Block>, heap: map<Address, nat>, here: set<Address>) {
    && (forall i, j :: 0 <= i < j < |s| ==> s[i].ptr != s[j].ptr)
    && (forall i :: 0 <= i < |s| ==> s[i].ptr in here && s[i].ptr in heap && heap[s[i].ptr] == s[i].size)
    && (forall a :: a in here ==> a in heap && Block(heap[a], a) in s)
  }

  ghost predicate ThreadHolds(s: State, home: map<Address, Home>, t: nat)
    requires t in s.threads
  {
    match s.threads[t]
    case Recording(b, want) => b.ptr in home && home[b.ptr] == Hand(t) && b.ptr in s.heap && s.heap[b.ptr] == b.size >= want
    case Shelving(b) => b.ptr in home && home[b.ptr] == Hand(t) && b.ptr in s.heap && s.heap[b.ptr] == b.size
    case Delivering(a, want) => a in home && home[a] == Outgoing(t) && a in s.heap && s.heap[a] >= want
    case Freeing(a) => a in home && home[a] == Returning(t)
    case Wild(_) => false
    case _ => true
  }

  /** The address a thread has in hand, on its way out or on its way back. */
  function Carried(p: Phase): Option<Address> {
    match p
    case Recording(b, _) => Some(b.ptr)
    case Shelving(b) => Some(b.ptr)
    case Delivering(a, _) => Some(a)
    case Freeing(a) => Some(a)
    case _ => None
  }

  ghost predicate HomeIsTrue(s: State, a: Address, h: Home) {
    match h
    case Budget => true
    case WithClient => a in s.held
    case Hand(t) => t in s.threads && Carried(s.threads[t]) == Some(a)
    case Outgoing(t) => t in s.threads && Carried(s.threads[t]) == Some(a)
    case Returning(t) => t in s.threads && Carried(s.threads[t]) == Some(a)
  }

  ghost function BudgetSet(home: map<Address, Home>): set<Address> { set a | a in home && home[a] == Budget }
  ghost function PayoutSet(home: map<Address, Home>): set<Address> { set a | a in home && InPayouts(home[a]) }

  /** The threads and the clients agree with `home`. */
  ghost predicate People(s: State, home: map<Address, Home>) {
    && home.Keys == s.heap.Keys
    && (forall t :: t in s.threads ==> ThreadHolds(s, home, t))
    && (forall a :: a in home ==> HomeIsTrue(s, a, home[a]))
    && (forall a :: a in s.held ==> a in home && home[a] == WithClient)
  }

  /**
   * `home` gives every live block exactly one home, and the lists, the threads and the clients agree with it: so no
   * block is lost, in two places, or with two holders, and no address is wild.
   */
  ghost predicate Accounts(s: State, home: map<Address, Home>) {
    People(s, home) && ListHolds(s.budgets, s.heap, BudgetSet(home)) && ListHolds(s.payouts, s.heap, PayoutSet(home))
  }

  lemma ListPush(s: seq<Block>, heap: map<Address, nat>, here: set<Address>, b: Block)
    requires ListHolds(s, heap, here) && b.ptr !in here && b.ptr in heap && heap[b.ptr] == b.size
    ensures ListHolds(s + [b], heap, here + {b.ptr})
  {
  }

  lemma ListTake(s: seq<Block>, heap: map<Address, nat>, here: set<Address>, k: nat)
    requires ListHolds(s, heap, here) && k < |s|
    ensures ListHolds(Without(s, k), heap, here - {s[k].ptr})
  {
  }

  /** The list does not notice what happens to the heap elsewhere. */
  lemma ListHeap(s: seq<Block>, heap: map<Address, nat>, heap': map<Address, nat>, here: set<Address>)
    requires ListHolds(s, heap, here) && forall a :: a in here && a in heap ==> a in heap' && heap'[a] == heap[a]
    ensures ListHolds(s, heap', here)
  {
  }

  /** Homes after a step. */
  ghost function Rehomed(s: State, home: map<Address, Home>, step: Step): map<Address, Home>
    requires Enabled(s, step)
  {
    var t, p := step.thread, s.threads[step.thread];
    match step
    case Search(_) =>
      var k := FirstFit(s.budgets, p.want, s.ratio, 0);
      if k < |s.budgets| then home[s.budgets[k].ptr := Hand(t)] else home
    case HeapAlloc(_, ptr) => home[ptr := Hand(t)]
    case Record(_) => home[p.block.ptr := Outgoing(t)]
    case Deliver(_) => home[p.ptr := WithClient]
    case BeginFree(_, ptr) => home[ptr := Returning(t)]
    case Unrecord(_) => home[p.ptr := Hand(t)]
    case Shelve(_) => home[p.block.ptr := Budget]
    case Clear(_) => home - Addresses(s.budgets)
    case _ => home
  }

  /** Heap and clients have changed at most at `a`. */
  ghost predicate SameElsewhere(s: State, s': State, a: Address) {
    && (forall b {:trigger b in s'.heap} {:trigger b in s.heap} :: b != a ==>
          (b in s'.heap <==> b in s.heap) && (b in s.heap ==> s'.heap[b] == s.heap[b]))
    && (forall b {:trigger b in s'.held} {:trigger b in s.held} :: b != a ==> (b in s'.held <==> b in s.held))
  }

  /** Thread `t` goes to a new phase and block `a`, which is with nobody else, to a new home. */
  lemma PeopleMove(s: State, home: map<Address, Home>, s': State, t: nat, p: Phase, a: Address, h: Home)
    requires People(s, home) && t in s.threads && s'.threads == s.threads[t := p]
    requires Carried(s.threads[t]) == None || Carried(s.threads[t]) == Some(a)
    requires a in home ==> home[a] in [Budget, WithClient, Hand(t), Outgoing(t), Returning(t)]
    requires a in s'.heap && SameElsewhere(s, s', a) && (a in s'.held <==> h == WithClient)
    requires ThreadHolds(s', home[a := h], t) && HomeIsTrue(s', a, h)
    ensures People(s', home[a := h])
  {
    var home' := home[a := h];
    forall u | u in s'.threads && u != t ensures ThreadHolds(s', home', u) { assert ThreadHolds(s, home, u); }
    forall b | b in home' && b != a ensures HomeIsTrue(s', b, home'[b]) { assert HomeIsTrue(s, b, home[b]); }
  }

  lemma PeopleThread(s: State, home: map<Address, Home>, t: nat, p: Phase)
    requires People(s, home) && t in s.threads && Carried(s.threads[t]) == None && Carried(p) == None && !p.Wild?
    ensures People(s.(threads := s.threads[t := p]), home)
  {
  }

  /** The list sets after one block has moved. */
  lemma SetsMove(home: map<Address, Home>, a: Address, h: Home)
    ensures BudgetSet(home[a := h]) == if h == Budget then BudgetSet(home) + {a} else BudgetSet(home) - {a}
    ensures PayoutSet(home[a := h]) == if InPayouts(h) then PayoutSet(home) + {a} else PayoutSet(home) - {a}
  {
  }

  lemma Remaining(set_: set<Address>, a: Address)
    ensures a in set_ ==> set_ + {a} == set_
    ensures a !in set_ ==> set_ - {a} == set_
  {
  }

  lemma SearchKeepsAccounts(s: State, home: map<Address, Home>, t: nat)
    requires Accounts(s, home) && Enabled(s, Search(t))
    ensures Accounts(Apply(s, Search(t)), Rehomed(s, home, Search(t)))
  {
    var p, s' := s.threads[t], Apply(s, Search(t));
    var k := FirstFit(s.budgets, p.want, s.ratio, 0);
    if k < |s.budgets| {
      var b := s.budgets[k];
      hide ListHolds, BudgetSet, PayoutSet, People;
      BudgetBlock(s, home, k);
      SetsMove(home, b.ptr, Hand(t));
      Remaining(PayoutSet(home), b.ptr);
      ListTake(s.budgets, s.heap, BudgetSet(home), k);
      PeopleMove(s, home, s', t, Recording(b, p.want), b.ptr, Hand(t));
    } else {
      PeopleThread(s, home, t, Allocating(p.want));
    }
  }

  lemma BudgetBlock(s: State, home: map<Address, Home>, k: nat)
    requires Accounts(s, home) && k < |s.budgets|
    ensures var b := s.budgets[k]; b.ptr in home && home[b.ptr] == Budget && b.ptr in s.heap && s.heap[b.ptr] == b.size
    ensures s.budgets[k].ptr !in s.held && s.budgets[k].ptr !in PayoutSet(home)
  {
  }

  lemma AllocKeepsAccounts(s: State, home: map<Address, Home>, t: nat, ptr: Address)
    requires Accounts(s, home) && Enabled(s, HeapAlloc(t, ptr))
    ensures Accounts(Apply(s, HeapAlloc(t, ptr)), Rehomed(s, home, HeapAlloc(t, ptr)))
  {
    var p, s' := s.threads[t], Apply(s, HeapAlloc(t, ptr));
    assert ptr !in home && ptr !in s.held && ptr !in BudgetSet(home) && ptr !in PayoutSet(home);
    hide ListHolds, BudgetSet, PayoutSet, People;
    SetsMove(home, ptr, Hand(t));
    Remaining(BudgetSet(home), ptr);
    Remaining(PayoutSet(home), ptr);
    ListHeap(s.budgets, s.heap, s'.heap, BudgetSet(home));
    ListHeap(s.payouts, s.heap, s'.heap, PayoutSet(home));
    PeopleMove(s, home, s', t, Recording(Block(p.want, ptr), p.want), ptr, Hand(t));
  }

  /** What the accounts say of a block in a thread's hands. */
  lemma CarriedBlock(s: State, home: map<Address, Home>, t: nat)
    requires Accounts(s, home) && t in s.threads && Carried(s.threads[t]).Some?
    ensures var a := Carried(s.threads[t]).value; var p := s.threads[t];
            && a in home && a in s.heap && a !in s.held && a !in BudgetSet(home)
            && (p.Recording? || p.Shelving? ==> home[a] == Hand(t) && a !in PayoutSet(home) && s.heap[a] == p.block.size)
            && (p.Recording? || p.Delivering? ==> s.heap[a] >= p.want)
            && (p.Delivering? ==> home[a] == Outgoing(t) && a in PayoutSet(home))
            && (p.Freeing? ==> home[a] == Returning(t) && a in PayoutSet(home))
  {
  }

  lemma RecordKeepsAccounts(s: State, home: map<Address, Home>, t: nat)
    requires Accounts(s, home) && Enabled(s, Record(t))
    ensures Accounts(Apply(s, Record(t)), Rehomed(s, home, Record(t)))
  {
    var p, s' := s.threads[t], Apply(s, Record(t));
    CarriedBlock(s, home, t);
    hide ListHolds, BudgetSet, PayoutSet, People;
    var a := p.block.ptr;
    SetsMove(home, a, Outgoing(t));
    Remaining(BudgetSet(home), a);
    ListPush(s.payouts, s.heap, PayoutSet(home), p.block);
    PeopleMove(s, home, s', t, Delivering(a, p.want), a, Outgoing(t));
  }

  lemma DeliverKeepsAccounts(s: State, home: map<Address, Home>, t: nat)
    requires Accounts(s, home) && Enabled(s, Deliver(t))
    ensures Accounts(Apply(s, Deliver(t)), Rehomed(s, home, Deliver(t)))
  {
    var p, s' := s.threads[t], Apply(s, Deliver(t));
    CarriedBlock(s, home, t);
    hide ListHolds, BudgetSet, PayoutSet, People;
    SetsMove(home, p.ptr, WithClient);
    Remaining(BudgetSet(home), p.ptr);
    Remaining(PayoutSet(home), p.ptr);
    PeopleMove(s, home, s', t, Idle, p.ptr, WithClient);
  }

  lemma BeginFreeKeepsAccounts(s: State, home: map<Address, Home>, t: nat, ptr: Address)
    requires Accounts(s, home) && Enabled(s, BeginFree(t, ptr))
    ensures Accounts(Apply(s, BeginFree(t, ptr)), Rehomed(s, home, BeginFree(t, ptr)))
  {
    var s' := Apply(s, BeginFree(t, ptr));
    assert home[ptr] == WithClient && ptr in s.heap && ptr in PayoutSet(home) && ptr !in BudgetSet(home);
    hide ListHolds, BudgetSet, PayoutSet, People;
    SetsMove(home, ptr, Returning(t));
    Remaining(BudgetSet(home), ptr);
    Remaining(PayoutSet(home), ptr);
    PeopleMove(s, home, s', t, Freeing(ptr), ptr, Returning(t));
  }

  /** The payout of a block on its way back is found, with its allocated size. */
  lemma FreedIsFound(s: State, home: map<Address, Home>, t: nat)
    requires Accounts(s, home) && t in s.threads && s.threads[t].Freeing?
    ensures var k := FindPtr(s.payouts, s.threads[t].ptr, 0);
            k < |s.payouts| && s.payouts[k].ptr == s.threads[t].ptr && s.heap[s.payouts[k].ptr] == s.payouts[k].size
  {
  }

  lemma UnrecordKeepsAccounts(s: State, home: map<Address, Home>, t: nat)
    requires Accounts(s, home) && Enabled(s, Unrecord(t))
    ensures Accounts(Apply(s, Unrecord(t)), Rehomed(s, home, Unrecord(t)))
  {
    var p, s' := s.threads[t], Apply(s, Unrecord(t));
    CarriedBlock(s, home, t);
    FreedIsFound(s, home, t);
    hide ListHolds, BudgetSet, PayoutSet, People;
    var k := FindPtr(s.payouts, p.ptr, 0);
    SetsMove(home, p.ptr, Hand(t));
    Remaining(BudgetSet(home), p.ptr);
    ListTake(s.payouts, s.heap, PayoutSet(home), k);
    PeopleMove(s, home, s', t, Shelving(s.payouts[k]), p.ptr, Hand(t));
  }

  lemma ShelveKeepsAccounts(s: State, home: map<Address, Home>, t: nat)
    requires Accounts(s, home) && Enabled(s, Shelve(t))
    ensures Accounts(Apply(s, Shelve(t)), Rehomed(s, home, Shelve(t)))
  {
    var p, s' := s.threads[t], Apply(s, Shelve(t));
    CarriedBlock(s, home, t);
    hide ListHolds, BudgetSet, PayoutSet, People;
    var a := p.block.ptr;
    SetsMove(home, a, Budget);
    Remaining(PayoutSet(home), a);
    ListPush(s.budgets, s.heap, BudgetSet(home), p.block);
    PeopleMove(s, home, s', t, Idle, a, Budget);
  }

  /** The budgets' addresses are the blocks at home there. */
  lemma BudgetAddresses(s: State, home: map<Address, Home>)
    requires Accounts(s, home)
    ensures Addresses(s.budgets) == BudgetSet(home)
  {
  }

  lemma ClearKeepsAccounts(s: State, home: map<Address, Home>, t: nat)
    requires Accounts(s, home) && Enabled(s, Clear(t))
    ensures Accounts(Apply(s, Clear(t)), Rehomed(s, home, Clear(t)))
  {
    var s', home' := Apply(s, Clear(t)), Rehomed(s, home, Clear(t));
    BudgetAddresses(s, home);
    assert BudgetSet(home') == {} && PayoutSet(home') == PayoutSet(home);
    ListHeap(s.payouts, s.heap, s'.heap, PayoutSet(home));
    ClearKeepsPeople(s, home, t);
  }

  lemma ClearKeepsPeople(s: State, home: map<Address, Home>, t: nat)
    requires People(s, home) && Enabled(s, Clear(t)) && Addresses(s.budgets) == BudgetSet(home)
    ensures People(Apply(s, Clear(t)), Rehomed(s, home, Clear(t)))
  {
  }

  /** Every step of every thread keeps the accounts; in particular none frees a wild address. */
  lemma StepKeepsAccounts(s: State, home: map<Address, Home>, step: Step)
    requires Accounts(s, home) && Enabled(s, step)
    ensures Accounts(Apply(s, step), Rehomed(s, home, step)) && !step.FreeWild?
  {
    hide Accounts;
    match step {
      case BeginMalloc(t, size) => IdleKeepsAccounts(s, home, t, size);
      case Search(t) => SearchKeepsAccounts(s, home, t);
      case HeapAlloc(t, ptr) => AllocKeepsAccounts(s, home, t, ptr);
      case Record(t) => RecordKeepsAccounts(s, home, t);
      case Deliver(t) => DeliverKeepsAccounts(s, home, t);
      case BeginFree(t, ptr) => BeginFreeKeepsAccounts(s, home, t, ptr);
      case Unrecord(t) => UnrecordKeepsAccounts(s, home, t);
      case Shelve(t) => ShelveKeepsAccounts(s, home, t);
      case FreeWild(t) => NeverWild(s, home, t);
      case Clear(t) => ClearKeepsAccounts(s, home, t);
      case SetRatio(t, ratio) => RatioKeepsAccounts(s, home, ratio);
    }
  }

  lemma IdleKeepsAccounts(s: State, home: map<Address, Home>, t: nat, size: nat)
    requires Accounts(s, home) && Enabled(s, BeginMalloc(t, size))
    ensures Accounts(Apply(s, BeginMalloc(t, size)), home)
  {
  }

  lemma RatioKeepsAccounts(s: State, home: map<Address, Home>, ratio: nat)
    requires Accounts(s, home)
    ensures Accounts(s.(ratio := ratio), home)
  {
  }

  lemma NeverWild(s: State, home: map<Address, Home>, t: nat)
    requires Accounts(s, home) && t in s.threads
    ensures !s.threads[t].Wild?
  {
  }

  predicate Runs(s: State, steps: seq<Step>)
    decreases |steps|
  {
    steps == [] || (Enabled(s, steps[0]) && Runs(Apply(s, steps[0]), steps[1..]))
  }

  function After(s: State, steps: seq<Step>): State
    requires Runs(s, steps)
    decreases |steps|
  {
    if steps == [] then s else After(Apply(s, steps[0]), steps[1..])
  }

  predicate Initial(s: State) {
    s.ratio == 192 && s.budgets == [] && s.payouts == [] && s.heap == map[] && s.held == {} && forall t :: t in s.threads ==> s.threads[t] == Idle
  }

  lemma {:induction false} RunKeepsAccounts(s: State, home: map<Address, Home>, steps: seq<Step>) returns (home': map<Address, Home>)
    requires Accounts(s, home) && Runs(s, steps)
    ensures Accounts(After(s, steps), home')
    decreases |steps|
  {
    hide Accounts, Apply, Enabled;
    if steps == [] {
      home' := home;
    } else {
      StepKeepsAccounts(s, home, steps[0]);
      home' := RunKeepsAccounts(Apply(s, steps[0]), Rehomed(s, home, steps[0]), steps[1..]);
    }
  }

  /** In every interleaving of malloc, free and clear by any threads, every live block is accounted for. */
  lemma EveryRunAccounts(s: State, steps: seq<Step>)
    requires Initial(s) && Runs(s, steps)
    ensures exists home :: Accounts(After(s, steps), home)
  {
    assert Accounts(s, map[]);
    var home := RunKeepsAccounts(s, map[], steps);
  }

  /** What the accounts mean for a block that is handed to a client: nobody has it, and it is large enough. */
  lemma DeliveredToOneHolder(s: State, steps: seq<Step>, t: nat)
    requires Initial(s) && Runs(s, steps) && Enabled(After(s, steps), Deliver(t))
    ensures var s' := After(s, steps); var p := s'.threads[t];
            && p.ptr !in s'.held && p.ptr in s'.heap && s'.heap[p.ptr] >= p.want && p.ptr !in Addresses(s'.budgets)
            && forall u :: u in s'.threads && u != t ==> Carried(s'.threads[u]) != Some(p.ptr)
  {
    EveryRunAccounts(s, steps);
    var s' := After(s, steps);
    hide After, Runs;
    var home :| Accounts(s', home);
    CarriedBlock(s', home, t);
    BudgetAddresses(s', home);
    forall u | u in s'.threads && u != t ensures Carried(s'.threads[u]) != Some(s'.threads[t].ptr) {
      if Carried(s'.threads[u]).Some? { CarriedBlock(s', home, u); }
    }
  }

  /** The test says: too small, or too large for the request by the ratio, in 64 bits. */
  lemma UnfitIs(bs: nat, size: nat, ratio: nat)
    ensures !Fits(bs, size, ratio) <==> bs < size || bs * ratio % 0x1_0000_0000_0000_0000 >= 256 * (size + 1)
  {
  }

  /**
   The search takes the first budget that is large enough and, its product in 64 bits, within the ratio, which is within
   the ratio if the product does not overflow; if there is none, it goes to allocate just what was asked for.
   */
  lemma ReusedBlockFits(s: State, t: nat)
    requires Enabled(s, Search(t)) && s.ratio <= 256
    ensures var want, s' := s.threads[t].want, Apply(s, Search(t));
            if s'.threads[t].Recording? then
              var b := s'.threads[t].block;
              && want <= b.size && (b.size * s.ratio < 0x1_0000_0000_0000_0000 ==> b.size * s.ratio < 256 * (want + 1))
              && b.size * s.ratio % 0x1_0000_0000_0000_0000 < 256 * (want + 1)
              && exists k ::
                   && 0 <= k < |s.budgets| && b == s.budgets[k] && s'.budgets == s.budgets[..k] + s.budgets[k + 1..]
                   && forall j :: 0 <= j < k ==>
                        s.budgets[j].size < want || s.budgets[j].size * s.ratio % 0x1_0000_0000_0000_0000 >= 256 * (want + 1)
            else
              && s' == s.(threads := s.threads[t := Allocating(want)])
              && forall j :: 0 <= j < |s.budgets| ==>
                   s.budgets[j].size < want || s.budgets[j].size * s.ratio % 0x1_0000_0000_0000_0000 >= 256 * (want + 1)
  {
    var want := s.threads[t].want;
    var k := FirstFit(s.budgets, want, s.ratio, 0);
    forall j | 0 <= j < |s.budgets|
      ensures !Fits(s.budgets[j].size, want, s.ratio) <==>
              s.budgets[j].size < want || s.budgets[j].size * s.ratio % 0x1_0000_0000_0000_0000 >= 256 * (want + 1)
    {
      UnfitIs(s.budgets[j].size, want, s.ratio);
    }
    hide Fits;
  }

  /** If the search reuses a block of size `bs`, the request is not too small for it. */
  ghost predicate ReusedWithin(s: State, t: nat, bs: nat)
    requires Enabled(s, Search(t))
  {
    var phase := Apply(s, Search(t)).threads[t];
    phase.Recording? && phase.block.size == bs ==> bs * s.ratio < 256 * (s.threads[t].want + 1)
  }

  /** In every run, while the ratio is `ratio`. */
  ghost predicate AlwaysReusedWithin(bs: nat, ratio: nat) {
    forall s, steps, t {:trigger Enabled(After(s, steps), Search(t))} ::
      Initial(s) && Runs(s, steps) && Enabled(After(s, steps), Search(t)) && After(s, steps).ratio == ratio ==>
      ReusedWithin(After(s, steps), t, bs)
  }

  /** The bound on reuse holds for blocks of a size in all runs exactly if the product of size and ratio does not overflow. */
  lemma ReuseBoundExactly(bs: nat, ratio: nat)
    requires bs < WORD && ratio <= 256
    ensures AlwaysReusedWithin(bs, ratio) <==> bs * ratio < 0x1_0000_0000_0000_0000
  {
    FitsExactly(bs, ratio);
    if bs * ratio < WORD {
      forall s, steps, t | Initial(s) && Runs(s, steps) && Enabled(After(s, steps), Search(t)) && After(s, steps).ratio == ratio
        ensures ReusedWithin(After(s, steps), t, bs)
      {
        ReusedBlockFits(After(s, steps), t);
      }
    } else {
      OverflowingRun(bs, ratio, Fooled(bs, ratio));
      assert !ReusedWithin(After(START, FreeThenAsk(bs, ratio, Fooled(bs, ratio))), 0, bs);
    }
  }

  const START := State(192, [], [], map[], map[0 := Idle], {})

  /** One thread allocates a block, frees it, and asks again. */
  function FreeThenAsk(bs: nat, ratio: nat, want: nat): seq<Step> {
    [SetRatio(0, ratio), BeginMalloc(0, bs), Search(0), HeapAlloc(0, 0), Record(0), Deliver(0),
     BeginFree(0, 0), Unrecord(0), Shelve(0), BeginMalloc(0, want)]
  }

  /** The state after the first `i` of these steps. */
  function Reached(bs: nat, ratio: nat, want: nat, i: nat): State {
    var block, begun := Block(bs, 0), START.(ratio := ratio);
    var grown := begun.(heap := map[0 := bs]);
    match i
    case 0 => START
    case 1 => begun
    case 2 => begun.(threads := map[0 := Searching(bs)])
    case 3 => begun.(threads := map[0 := Allocating(bs)])
    case 4 => grown.(threads := map[0 := Recording(block, bs)])
    case 5 => grown.(payouts := [block], threads := map[0 := Delivering(0, bs)])
    case 6 => grown.(payouts := [block], held := {0})
    case 7 => grown.(payouts := [block], threads := map[0 := Freeing(0)])
    case 8 => grown.(threads := map[0 := Shelving(block)])
    case 9 => grown.(budgets := [block])
    case _ => grown.(budgets := [block], threads := map[0 := Searching(want)])
  }

  lemma TurnReached(bs: nat, ratio: nat, want: nat, i: nat)
    requires bs < WORD && ratio <= 256 && want < WORD && i < 10
    ensures var step := FreeThenAsk(bs, ratio, want)[i];
            Enabled(Reached(bs, ratio, want, i), step) && Apply(Reached(bs, ratio, want, i), step) == Reached(bs, ratio, want, i + 1)
  {
    hide Fits;
    if i == 7 { assert Without([Block(bs, 0)], 0) == []; }
  }

  lemma {:induction false} RunReaches(bs: nat, ratio: nat, want: nat, i: nat)
    requires bs < WORD && ratio <= 256 && want < WORD && i <= 10
    ensures var steps, s := FreeThenAsk(bs, ratio, want)[i..], Reached(bs, ratio, want, i);
            Runs(s, steps) && After(s, steps) == Reached(bs, ratio, want, 10)
    decreases 10 - i
  {
    hide Enabled, Apply, Reached;
    if i < 10 {
      TurnReached(bs, ratio, want, i);
      RunReaches(bs, ratio, want, i + 1);
      assert FreeThenAsk(bs, ratio, want)[i..][1..] == FreeThenAsk(bs, ratio, want)[i + 1..];
    }
  }

  lemma OverflowingRun(bs: nat, ratio: nat, want: nat)
    requires bs < WORD && ratio <= 256 && want < WORD && Fits(bs, want, ratio)
    ensures var steps := FreeThenAsk(bs, ratio, want);
            && Initial(START) && Runs(START, steps)
            && var s := After(START, steps);
               && s.ratio == ratio && Enabled(s, Search(0)) && s.threads[0].want == want
               && Apply(s, Search(0)).threads[0] == Recording(Block(bs, 0), want)
  {
    hide Fits, Runs, After;
    RunReaches(bs, ratio, want, 0);
    assert FreeThenAsk(bs, ratio, want)[0..] == FreeThenAsk(bs, ratio, want);
  }
}
