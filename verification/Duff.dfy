/** Duff's device, twice: eight copies a round, entered in the middle of the first.
    Both store every byte in the one place `*to`, which never advances. */
module Duff {
  import opened Bytes

  /** C's division and remainder of an `int` by a positive one truncate. */
  function Quotient(a: int, b: int): int
    requires b > 0
  {
    if a >= 0 then a / b else -((-a) / b)
  }

  function Remainder(a: int, b: int): int
    requires b > 0
  {
    a - b * Quotient(a, b)
  }

  function Rounds(count: int): int {
    Quotient(count + 7, 8)
  }

  /** How many copies the first round makes, entered where the switch jumps. */
  function FirstRound(count: int): nat {
    var r := Remainder(count, 8);
    if r == 0 then 8 else if r > 0 then r else 0
  }

  /** How many bytes `copy2` copies, whatever the count. */
  function Copied(count: int): nat {
    if count > 0 then count else if count % 8 == 0 then 8 else 0
  }

  /** The identity behind both: the first round and the full ones make the count. */
  lemma {:induction false} RoundsMakeCount(count: int)
    ensures count > 0 ==> Rounds(count) >= 1 && FirstRound(count) + 8 * (Rounds(count) - 1) == count
    ensures count <= 0 ==> Rounds(count) <= 0 && FirstRound(count) == Copied(count)
  {
  }

  /** The loop of `copy` between two rounds: the counter, the bytes stored so far, and
      whether the test `--n` has found zero. */
  datatype Device = Device(n: int, pos: nat, done: bool)

  function Test(d: Device): Device {
    Device(d.n - 1, d.pos, d.n - 1 == 0)
  }

  /** After the switch and that many more turns of the loop, as long as it goes on. */
  function Turns(count: int, turns: nat): Device {
    if turns == 0 then Test(Device(Rounds(count), FirstRound(count), false))
    else
      var d := Turns(count, turns - 1);
      if d.done then d else Test(d.(pos := d.pos + 8))
  }

  /** The loop ends exactly if the count is positive, and then with that many bytes
      stored; otherwise it stores eight more bytes in every turn, without end. */
  lemma {:induction false} CopyEndsIff(count: int)
    ensures (exists turns: nat :: Turns(count, turns).done) <==> count > 0
    ensures forall turns: nat :: Turns(count, turns).done ==> Turns(count, turns).pos == count
    ensures count <= 0 ==> forall turns: nat :: Turns(count, turns).pos == FirstRound(count) + 8 * turns
  {
    RoundsMakeCount(count);
    forall turns: nat
      ensures count <= 0 ==> !Turns(count, turns).done && Turns(count, turns).pos == FirstRound(count) + 8 * turns
      ensures Turns(count, turns).done ==> Turns(count, turns).pos == count
    {
      TurnsCount(count, turns);
    }
    if count > 0 {
      TurnsCount(count, Rounds(count) - 1);
    }
  }

  lemma {:induction false} TurnsCount(count: int, turns: nat)
    ensures var d := Turns(count, turns);
            && (count <= 0 ==> !d.done && d.n == Rounds(count) - 1 - turns && d.pos == FirstRound(count) + 8 * turns)
            && (count > 0 ==> d.done == (turns >= Rounds(count) - 1) && (d.done ==> d.pos == count)
                              && (!d.done ==> d.n == Rounds(count) - 1 - turns && d.pos + 8 * d.n == count))
  {
    RoundsMakeCount(count);
    if turns > 0 {
      TurnsCount(count, turns - 1);
    }
  }

  /** One `*to = *from++`. */
  method Put(to: array<byte>, from: seq<byte>, pos: nat, ghost stored: seq<byte>) returns (next: nat, ghost stored': seq<byte>)
    requires to.Length > 0 && pos < |from| && stored == from[..pos]
    modifies to
    ensures next == pos + 1 && stored' == from[..next] && to[0] == from[pos]
  {
    to[0] := from[pos];
    stored' := stored + [to[0]];
    next := pos + 1;
  }

  /** The eight statements, entered at the label `entry`: 0, 7, 6, and so on down
      to 1. Without such a label none is executed. */
  method Round(to: array<byte>, from: seq<byte>, pos: nat, entry: int, ghost stored: seq<byte>)
    returns (next: nat, ghost stored': seq<byte>)
    requires to.Length > 0 && pos <= |from| && stored == from[..pos] && -8 < entry < 8
    requires pos + (if entry == 0 then 8 else if entry > 0 then entry else 0) <= |from|
    modifies to
    ensures next == pos + (if entry == 0 then 8 else if entry > 0 then entry else 0)
    ensures stored' == from[..next] && to[0] == if next == pos then old(to[0]) else from[next - 1]
  {
    next, stored' := pos, stored;
    var entered := entry == 0;
    if entered { next, stored' := Put(to, from, next, stored'); }
    entered := entered || entry == 7;
    if entered { next, stored' := Put(to, from, next, stored'); }
    entered := entered || entry == 6;
    if entered { next, stored' := Put(to, from, next, stored'); }
    entered := entered || entry == 5;
    if entered { next, stored' := Put(to, from, next, stored'); }
    entered := entered || entry == 4;
    if entered { next, stored' := Put(to, from, next, stored'); }
    entered := entered || entry == 3;
    if entered { next, stored' := Put(to, from, next, stored'); }
    entered := entered || entry == 2;
    if entered { next, stored' := Put(to, from, next, stored'); }
    entered := entered || entry == 1;
    if entered { next, stored' := Put(to, from, next, stored'); }
  }

  /** `copy`; its loop goes through the turns above. */
  method Copy(to: array<byte>, from: seq<byte>, count: int) returns (ghost stored: seq<byte>)
    requires to.Length > 0 && 0 < count <= |from|
    modifies to
    ensures stored == from[..count] && to[0] == from[count - 1]
  {
    RoundsMakeCount(count);
    var n := Rounds(count);
    var pos;
    pos, stored := Round(to, from, 0, Remainder(count, 8), []);
    n := n - 1;
    ghost var turns: nat := 0;
    while n != 0
      invariant n >= 0 && pos > 0 && pos + 8 * n == count
      invariant Device(n, pos, n == 0) == Turns(count, turns)
      invariant stored == from[..pos] && to[0] == from[pos - 1]
      decreases n
    {
      pos, stored := Round(to, from, pos, 0, stored);
      n := n - 1;
      turns := turns + 1;
    }
  }

  /** `copy2`, for any count. It stores as many bytes as asked exactly if the count is
      positive or not a multiple of eight: asked for none, or for minus eight, eight. */
  method Copy2(to: array<byte>, from: seq<byte>, count: int) returns (ghost stored: seq<byte>)
    requires to.Length > 0 && Copied(count) <= |from|
    modifies to
    ensures stored == from[..Copied(count)]
    ensures |stored| == (if count > 0 then count else 0) <==> count > 0 || count % 8 != 0
    ensures to[0] == if Copied(count) == 0 then old(to[0]) else from[Copied(count) - 1]
  {
    RoundsMakeCount(count);
    var n := Rounds(count);
    var entry := Remainder(count, 8);
    var pos;
    pos, stored := Round(to, from, 0, entry, []);
    if entry < 0 { return; }
    n := n - 1;
    while n > 0
      invariant count > 0 ==> n >= 0 && pos + 8 * n == count
      invariant count <= 0 ==> n < 0 && pos == Copied(count)
      invariant pos > 0 && stored == from[..pos] && to[0] == from[pos - 1]
    {
      pos, stored := Round(to, from, pos, 0, stored);
      n := n - 1;
    }
  }
}
