/** circular_queue: a ring of max_items + 1 slots, one of which marks the full ring. */
module CircularQueue {
  /** What a ring holds: the items from oldest to newest, at most `max`, and the number of items overrun so far. */
  datatype Ring<T> = Ring(max: nat, items: seq<T>, overrun: nat) {
    predicate Full() { |items| >= max }

    /** The oldest item makes room if the ring is full; a ring of no room drops the new item itself. */
    function Push(item: T): (r: Ring<T>)
      ensures r.max == max
      ensures !Full() ==> r.items == items + [item] && r.overrun == overrun
      ensures Full() ==> [(items + [item])[0]] + r.items == items + [item] && r.overrun == overrun + 1
    {
      if Full() then Ring(max, (items + [item])[1..], overrun + 1) else Ring(max, items + [item], overrun)
    }

    function Pop(): Ring<T>
      requires items != []
    {
      Ring(max, items[1..], overrun)
    }
  }

  /** The slots from `head` on, around the end of the ring, up to `tail`. */
  function Between<T>(slots: seq<T>, head: nat, tail: nat): seq<T>
    requires head <= |slots| && tail <= |slots|
  {
    if tail >= head then slots[head..tail] else slots[head..] + slots[..tail]
  }

  function Next(i: nat, n: nat): nat { if i + 1 == n then 0 else i + 1 }

  lemma BetweenPush<T>(slots: seq<T>, head: nat, tail: nat, item: T)
    requires head < |slots| && tail < |slots|
    ensures var n, items := |slots|, Between(slots, head, tail) + [item];
            var slots', tail' := slots[tail := item], Next(tail, n);
            if tail' == head then |items| == n && Between(slots', Next(head, n), tail') == items[1..]
            else |items| < n && Between(slots', head, tail') == items
  {
    var n, items := |slots|, Between(slots, head, tail) + [item];
    var slots', tail' := slots[tail := item], Next(tail, n);
    if tail' == head {
      assert Between(slots', Next(head, n), tail') == items[1..];
    } else {
      assert Between(slots', head, tail') == items;
    }
  }

  class CircularQueue<T(0)> {
    var max_items_: nat
    var head_: nat
    var tail_: nat
    var overrun_counter_: nat
    var vec_: array<T>

    /** A queue without slots is what a move leaves behind. */
    ghost predicate Valid()
      reads this
    {
      vec_.Length == max_items_ && if max_items_ == 0 then head_ == tail_ == 0 else head_ < max_items_ && tail_ < max_items_
    }

    ghost predicate Enabled()
      reads this
    {
      Valid() && max_items_ > 0
    }

    ghost function Items(): seq<T>
      requires Valid()
      reads this, vec_
    {
      Between(vec_[..], head_, tail_)
    }

    ghost function Contents(): (r: Ring<T>)
      requires Enabled()
      reads this, vec_
      ensures |r.items| <= r.max
    {
      Ring(max_items_ - 1, Items(), overrun_counter_)
    }

    constructor (max_items: nat)
      ensures Enabled() && fresh(vec_) && Contents() == Ring(max_items, [], 0)
    {
      max_items_ := max_items + 1;
      head_, tail_, overrun_counter_ := 0, 0, 0;
      vec_ := new T[max_items + 1];
    }

    method PushBack(item: T)
      requires Valid()
      modifies this, vec_
      ensures Valid() && vec_ == old(vec_) && max_items_ == old(max_items_)
      ensures old(max_items_) == 0 ==> Items() == old(Items()) && overrun_counter_ == old(overrun_counter_)
      ensures old(max_items_) > 0 ==> Contents() == old(Contents()).Push(item)
    {
      hide Between;
      if max_items_ > 0 {
        BetweenPush(vec_[..], head_, tail_, item);
        WrappedIndex(tail_ + 1, max_items_);
        WrappedIndex(head_ + 1, max_items_);
        ghost var slots := vec_[..];
        vec_[tail_] := item;
        assert vec_[..] == slots[tail_ := item];
        tail_ := (tail_ + 1) % max_items_;
        if tail_ == head_ {
          head_ := (head_ + 1) % max_items_;
          overrun_counter_ := overrun_counter_ + 1;
        }
      }
    }

    /** Front of a queue that is not empty. */
    method Front() returns (item: T)
      requires Enabled() && Items() != []
      ensures item == Items()[0]
    {
      item := vec_[head_];
    }

    method Size() returns (n: nat)
      requires Valid()
      ensures n == |Items()|
    {
      if tail_ >= head_ { n := tail_ - head_; } else { n := max_items_ - (head_ - tail_); }
    }

    method At(i: nat) returns (item: T)
      requires Valid() && i < |Items()|
      ensures item == Items()[i]
    {
      WrappedIndex(head_ + i, max_items_);
      item := vec_[(head_ + i) % max_items_];
    }

    method PopFront()
      requires Enabled() && Items() != []
      modifies this`head_
      ensures Enabled() && Contents() == old(Contents()).Pop()
    {
      WrappedIndex(head_ + 1, max_items_);
      head_ := (head_ + 1) % max_items_;
    }

    method Empty() returns (empty: bool)
      requires Valid()
      ensures empty == (Items() == [])
    {
      empty := tail_ == head_;
    }

    method Full() returns (full: bool)
      requires Valid()
      ensures full == (max_items_ > 0 && |Items()| == max_items_ - 1)
    {
      if max_items_ > 0 {
        WrappedIndex(tail_ + 1, max_items_);
        full := (tail_ + 1) % max_items_ == head_;
      } else {
        full := false;
      }
    }

    /** copy_moveable: takes everything from `other` and leaves it disabled but valid. */
    method MoveFrom(other: CircularQueue<T>)
      requires other.Valid()
      modifies this, other
      ensures Valid() && other.Valid() && other.max_items_ == 0 && other.Items() == [] && other.overrun_counter_ == 0
      ensures other != this ==>
                max_items_ == old(other.max_items_) && Items() == old(other.Items()) && overrun_counter_ == old(other.overrun_counter_)
    {
      max_items_, head_, tail_, overrun_counter_ := other.max_items_, other.head_, other.tail_, other.overrun_counter_;
      vec_ := other.vec_;
      other.vec_ := new T[0];
      other.max_items_ := 0;
      other.head_, other.tail_ := 0, 0;
      other.overrun_counter_ := 0;
    }
  }

  lemma WrappedIndex(i: nat, n: nat)
    requires i < 2 * n
    ensures i % n == if i < n then i else i - n
  {
  }
}
