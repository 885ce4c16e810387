/** The ring object itself, with its slots overwritten in place and its 64-bit counters wrapping, as one
    goroutine at a time sees it. (RingProtocol has the interleavings.) */
module AtomicQueue {
  import opened Options
  import opened RingIndex

  newtype uint64 = x: int | 0 <= x < 0x1_0000_0000_0000_0000
  newtype int32 = x: int | -0x8000_0000 <= x < 0x8000_0000

  /** Subtraction of 64-bit counters wraps. */
  function Minus(a: uint64, b: uint64): uint64 {
    ((a as int - b as int) % WORD) as uint64
  }

  function Next(a: uint64): uint64 {
    ((a as int + 1) % WORD) as uint64
  }

  lemma MinusPlus(a: uint64, b: uint64)
    ensures a as nat == (b as nat + Minus(a, b) as nat) % WORD
    ensures Minus(a, b) == 0 <==> a == b
  {
  }

  lemma NextIs(a: uint64)
    ensures Next(a) as nat == (a as nat + 1) % WORD
  {
  }

  lemma MinusIs(a: uint64, b: uint64)
    ensures Minus(a, b) as int == if a >= b then a as int - b as int else a as int - b as int + WORD
  {
  }

  lemma MinusNext(a: uint64, b: uint64)
    ensures Minus(a, b) as nat + 1 < WORD ==> Minus(Next(a), b) as nat == Minus(a, b) as nat + 1
    ensures a != b ==> Minus(a, Next(b)) as nat == Minus(a, b) as nat - 1
  {
    hide Minus;
    MinusIs(a, b);
    MinusIs(Next(a), b);
    MinusIs(a, Next(b));
  }

  /** The 32-bit count of drops wraps to negative. */
  function CountDrop(n: int32): int32 {
    if n == 0x7FFF_FFFF then -0x8000_0000 else n + 1
  }

  /** The slot of the i-th value from the head, wrapping around. */
  ghost function At<T>(slots: seq<Option<T>>, head: nat, i: nat): Option<T>
    requires |slots| > 0
  {
    slots[(head + i) % |slots|]
  }

  ghost predicate Filled<T>(slots: seq<Option<T>>, head: nat, n: nat)
    requires |slots| > 0
  {
    forall i: nat :: i < n ==> At(slots, head, i).Some?
  }

  /** The n values from the head. */
  ghost function View<T>(slots: seq<Option<T>>, head: nat, n: nat): (v: seq<T>)
    requires |slots| > 0 && Filled(slots, head, n)
    ensures |v| == n
  {
    seq(n, i requires 0 <= i < n && Filled(slots, head, n) => At(slots, head, i).value)
  }

  lemma ViewAppend<T>(slots: seq<Option<T>>, head: nat, n: nat, m: nat, v: T)
    requires 0 < |slots| && Filled(slots, head, n) && n < |slots| && m == (head + n) % |slots|
    ensures Filled(slots[m := Some(v)], head, n + 1)
    ensures View(slots[m := Some(v)], head, n + 1) == View(slots, head, n) + [v]
  {
    var slots' := slots[m := Some(v)];
    forall i: nat | i < n ensures At(slots', head, i) == At(slots, head, i) {
      SlotsDistinct(head + i, head + n, |slots|);
    }
    assert At(slots', head, n) == Some(v);
    assert Filled(slots', head, n + 1);
  }

  lemma ViewPop<T>(slots: seq<Option<T>>, head: nat, n: nat)
    requires |slots| > 0 && Filled(slots, head, n) && n > 0
    ensures Filled(slots, head + 1, n - 1) && View(slots, head + 1, n - 1) == View(slots, head, n)[1..]
    ensures slots[head % |slots|] == Some(View(slots, head, n)[0])
  {
    var head' := head + 1;
    assert At(slots, head, 0).Some?;
    forall i: nat | i < n - 1 ensures At(slots, head', i) == Some(View(slots, head, n)[1..][i]) {
      assert At(slots, head, i + 1) == At(slots, head', i);
    }
  }

  /** The wrapped head names the same slots as the unwrapped one. */
  lemma AtWrap<T>(slots: seq<Option<T>>, head: nat, i: nat, logSize: nat)
    requires logSize <= 64 && |slots| == Pow2(logSize)
    ensures At(slots, head % WORD, i) == At(slots, head, i)
  {
    WrappedSum(head, i, logSize);
  }

  lemma ViewWrap<T>(slots: seq<Option<T>>, head: nat, n: nat, logSize: nat)
    requires logSize <= 64 && |slots| == Pow2(logSize) && Filled(slots, head, n)
    ensures Filled(slots, head % WORD, n) && View(slots, head % WORD, n) == View(slots, head, n)
  {
    forall i: nat ensures At(slots, head % WORD, i) == At(slots, head, i) {
      AtWrap(slots, head, i, logSize);
    }
  }

  /** Advancing the wrapped head by one drops the first value. */
  lemma HeadAdvances<T>(slots: seq<Option<T>>, head: uint64, tail: uint64, logSize: nat)
    requires logSize <= 64 && |slots| == Pow2(logSize) && head != tail
    requires Filled(slots, head as nat, Minus(tail, head) as nat)
    ensures Minus(tail, head) > 0 && Minus(tail, Next(head)) as nat == Minus(tail, head) as nat - 1
    ensures Filled(slots, Next(head) as nat, Minus(tail, Next(head)) as nat)
    ensures View(slots, Next(head) as nat, Minus(tail, Next(head)) as nat) == View(slots, head as nat, Minus(tail, head) as nat)[1..]
    ensures slots[head as nat % |slots|] == Some(View(slots, head as nat, Minus(tail, head) as nat)[0])
  {
    hide Minus, Next, View, Filled, Pow2, At;
    MinusPlus(tail, head);
    MinusNext(tail, head);
    NextIs(head);
    var n := Minus(tail, head) as nat;
    ViewPop(slots, head as nat, n);
    ViewWrap(slots, head as nat + 1, n - 1, logSize);
  }

  class Ring<T> {
    const logSize: nat
    const policy: Policy
    const data: array<Option<T>>
    var head: uint64
    var tail: uint64
    var dropped: int32
    var token: bool

    ghost function Count(): nat
      reads this
    {
      Minus(tail, head) as nat
    }

    ghost predicate Valid()
      reads this, data
    {
      && logSize <= 62
      && data.Length == Pow2(logSize)
      && Count() <= data.Length
      && Filled(data[..], head as nat, Count())
    }

    /** The values from head to tail. */
    ghost function Contents(): (c: seq<T>)
      reads this, data
      requires Valid()
      ensures |c| == Count()
    {
      View(data[..], head as nat, Count())
    }

    constructor (logSize: nat, policy: Policy)
      requires logSize <= 62
      ensures Valid() && Contents() == [] && fresh(data)
      ensures this.logSize == logSize && this.policy == policy && dropped == 0 && !token
    {
      this.logSize, this.policy := logSize, policy;
      data := new Option<T>[Pow2(logSize)](_ => None);
      head, tail, dropped, token := 0, 0, 0, false;
    }

    method Length() returns (n: uint64)
      requires Valid()
      ensures n as int == |Contents()|
    {
      n := Minus(tail, head);
    }

    method Full() returns (full: bool)
      requires Valid()
      ensures full <==> |Contents()| == data.Length
    {
      full := Minus(tail, head) as int >= data.Length;
    }

    method Empty() returns (empty: bool)
      requires Valid()
      ensures empty <==> Contents() == []
    {
      empty := head == tail;
    }

    method Mask(idx: uint64) returns (m: nat)
      requires Valid()
      ensures m == idx as nat % data.Length < data.Length
    {
      m := BitAnd(idx as nat, data.Length - 1);
      MaskIsRemainder(idx as nat, logSize);
    }

    /** The writer's turn with a received value: append it, or count it as dropped when the ring is full. */
    method Admit(v: T)
      requires Valid()
      modifies this, data
      ensures Valid()
      ensures |old(Contents())| == data.Length ==>
                Contents() == old(Contents()) && (dropped as int - old(dropped) as int - 1) % 0x1_0000_0000 == 0
      ensures |old(Contents())| < data.Length ==> Contents() == old(Contents()) + [v] && dropped == old(dropped)
      ensures token == old(token)
    {
      var full := Full();
      if full {
        dropped := CountDrop(dropped);
        return;
      }
      hide Pow2, BitAnd, Minus, Next, View, Filled;
      var m := Mask(tail);
      TailSlot();
      ViewAppend(data[..], head as nat, Count(), m, v);
      data[m] := Some(v);
      tail := Next(tail);
      assert data[..] == old(data[..])[m := Some(v)];
      RingSizeFits(logSize);
      MinusNext(old(tail), head);
    }

    /** Taking the wrapped tail names the slot after the last value. */
    lemma TailSlot()
      requires Valid()
      ensures tail as nat % data.Length == (head as nat + Count()) % data.Length
    {
      MinusPlus(tail, head);
      WrappedRemainder(head as nat + Count(), logSize);
    }

    /** One attempt to pop. Alone, the CAS always succeeds. */
    method TryPop() returns (output: Option<T>, success: bool, empty: bool)
      requires Valid()
      modifies this
      ensures Valid() && tail == old(tail) && dropped == old(dropped)
      ensures empty <==> old(Contents()) == []
      ensures success <==> !empty
      ensures empty ==> output == None && Contents() == [] && token == old(token)
      ensures success ==> output == Some(old(Contents())[0]) && Contents() == old(Contents())[1..]
      ensures success ==> token == (old(token) || policy.BlockFull?)
    {
      hide Pow2, BitAnd, Minus, Next, View, Filled, At;
      var h, t := head, tail;
      MinusPlus(tail, head);
      if h == t {
        return None, false, true;
      }
      HeadAdvances(data[..], head, tail, logSize);
      var m := Mask(h);
      var val := data[m].value;
      if head == h {
        head := Next(h);
        success, output, empty := true, Some(val), false;
        if policy.BlockFull? && !token {
          token := true;
        }
      }
    }

    /** Retries until the pop succeeds or the ring is seen empty. */
    method Pop() returns (value: Option<T>)
      requires Valid()
      modifies this
      ensures Valid() && tail == old(tail) && dropped == old(dropped)
      ensures old(Contents()) == [] ==> value == None && Contents() == []
      ensures old(Contents()) != [] ==> value == Some(old(Contents())[0]) && Contents() == old(Contents())[1..]
    {
      var success, empty := false, false;
      value := None;
      while !success && !empty
        invariant Valid() && tail == old(tail) && dropped == old(dropped)
        invariant !success && !empty ==> Contents() == old(Contents())
        invariant empty ==> !success && old(Contents()) == [] && Contents() == [] && value == None
        invariant success ==> old(Contents()) != [] && value == Some(old(Contents())[0]) && Contents() == old(Contents())[1..]
        decreases !success && !empty
      {
        value, success, empty := TryPop();
      }
    }
  }
}
