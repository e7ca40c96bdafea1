/** The game's inventory (game/src/nemu-pal/global/global.c:553-744): a fixed array
    of items, searched up to its first empty slot. */
module Inventory {
  type Short = x: int | 0 <= x < 0x1_0000
  type Int = x: int | -0x8000_0000 <= x < 0x8000_0000

  const MAX_INVENTORY: nat := 256
  const MAX_AMOUNT: nat := 99

  datatype Item = Item(id: Short, amount: Short, inUse: Short)

  const EMPTY: Item := Item(0, 0, 0)

  function Min(x: int, y: int): int { if x < y then x else y }

  // ---------------------------------------------------------------------
  // The inventory as a map from item to amount
  // ---------------------------------------------------------------------

  /** The first slot that holds the item or is empty. */
  function Search(s: seq<Item>, id: Short): (k: nat)
    ensures k <= |s| && (k < |s| ==> s[k].id == id || s[k].id == 0)
    ensures forall i :: 0 <= i < k ==> s[i].id != id && s[i].id != 0
  {
    if s == [] || s[0].id == id || s[0].id == 0 then 0 else Search(s[1..], id) + 1
  }

  predicate Has(s: seq<Item>, id: Short) {
    id != 0 && Search(s, id) < |s| && s[Search(s, id)].id == id
  }

  function Amount(s: seq<Item>, id: Short): Short {
    if Has(s, id) then s[Search(s, id)].amount else 0
  }

  /** The first n slots hold different items and the others are empty. */
  ghost predicate Packed(s: seq<Item>, n: nat) {
    && n <= |s|
    && (forall i :: 0 <= i < n ==> s[i].id != 0)
    && (forall i :: n <= i < |s| ==> s[i].id == 0)
    && (forall i, j :: 0 <= i < j < n ==> s[i].id != s[j].id)
  }

  lemma SearchIs(s: seq<Item>, id: Short, k: nat)
    requires k <= |s| && (k < |s| ==> s[k].id == id || s[k].id == 0)
    requires forall i :: 0 <= i < k ==> s[i].id != id && s[i].id != 0
    ensures Search(s, id) == k
  {
  }

  /** What an item's amount becomes: the sum is kept in 16 bits before it is capped. */
  function Added(amount: Short, num: Int): Short
    requires num > 0
  {
    Min(MAX_AMOUNT, (amount + num) % 0x1_0000)
  }

  /** Adding caps at 99 exactly when the 16-bit sum has not wrapped to less than that. */
  lemma AddedExactly(amount: Short, num: Int)
    requires num > 0
    ensures Added(amount, num) == Min(MAX_AMOUNT, amount + num)
            <==> amount + num < 0x1_0000 || (amount + num) % 0x1_0000 >= MAX_AMOUNT
  {
  }

  /** Adding 65500 to 50 leaves 14. */
  lemma WrappedExample()
    ensures Added(50, 65500) == 14 && Min(MAX_AMOUNT, 50 + 65500) == 99
  {
  }

  /** Changing one slot's amount changes that item's amount only. */
  lemma SetAmount(s: seq<Item>, n: nat, id: Short, v: Short)
    requires Packed(s, n) && Has(s, id)
    ensures var k := Search(s, id); var t := s[k := s[k].(amount := v)];
            && Packed(t, n) && Has(t, id) && Amount(t, id) == v
            && forall other: Short :: other != id ==>
                 Has(t, other) == Has(s, other) && Amount(t, other) == Amount(s, other)
  {
    var k := Search(s, id);
    var t := s[k := s[k].(amount := v)];
    forall other: Short ensures Search(t, other) == Search(s, other) {
      SearchIs(t, other, Search(s, other));
    }
  }

  /** At most the slot that the search for id stops at differs: it holds id now, and
      what it had in use stays. */
  ghost predicate OneSlot(s: seq<Item>, t: seq<Item>, id: Short) {
    var k := Search(s, id);
    && k < |s| == |t|
    && t == s[k := s[k].(id := id, amount := t[k].amount)]
  }

  /** Filling the first empty slot adds that item and no other. */
  lemma NewSlot(s: seq<Item>, n: nat, id: Short, item: Item)
    requires Packed(s, n) && n < |s| && id != 0 && !Has(s, id) && item.id == id
    ensures Search(s, id) == n
    ensures var t := s[n := item];
            && Packed(t, n + 1) && Has(t, id) && Amount(t, id) == item.amount
            && forall other: Short :: other != id ==>
                 Has(t, other) == Has(s, other) && Amount(t, other) == Amount(s, other)
  {
    var t := s[n := item];
    SlotOf(s, n, id);
    SearchIs(t, id, n);
    forall other: Short | other != id
      ensures Has(t, other) == Has(s, other) && Amount(t, other) == Amount(s, other)
    {
      SlotOf(s, n, other);
      SlotOf(t, n + 1, other);
      if Has(s, other) {
        SearchIs(t, other, Search(s, other));
      } else if Has(t, other) {
        SearchIs(s, other, Search(t, other));
      }
    }
  }

  lemma SlotOf(s: seq<Item>, n: nat, id: Short)
    requires Packed(s, n)
    ensures Has(s, id) ==> Search(s, id) < n
    ensures !Has(s, id) && id != 0 ==> Search(s, id) == n
  {
    if n < |s| {
      assert s[n].id == 0;
    }
  }

  /** The slots worth keeping, in order. */
  function Kept(s: seq<Item>): (r: seq<Item>)
    ensures |r| <= |s|
  {
    if s == [] then [] else (if s[0].amount > 0 then [s[0]] else []) + Kept(s[1..])
  }

  lemma {:induction false} KeptNext(s: seq<Item>, n: nat)
    requires n < |s|
    ensures Kept(s[..n + 1]) == Kept(s[..n]) + if s[n].amount > 0 then [s[n]] else []
  {
    if n > 0 {
      KeptNext(s[1..], n - 1);
      assert s[..n + 1][1..] == s[1..][..n] && s[..n][1..] == s[1..][..n - 1];
    }
  }

  /** Every kept slot comes from an earlier or equal place, in the same order. */
  lemma {:induction false} KeptOrigin(s: seq<Item>, k: nat) returns (i: nat)
    requires k < |Kept(s)|
    ensures k <= i < |s| && Kept(s)[k] == s[i] && s[i].amount > 0
    ensures k == |Kept(s[..i])|
  {
    if s[0].amount > 0 && k == 0 {
      i := 0;
    } else {
      i := KeptOrigin(s[1..], if s[0].amount > 0 then k - 1 else k);
      i := i + 1;
      assert s[..i][1..] == s[1..][..i - 1];
    }
  }

  lemma {:induction false} KeptMember(s: seq<Item>, i: nat) returns (k: nat)
    requires i < |s| && s[i].amount > 0
    ensures k < |Kept(s)| && Kept(s)[k] == s[i]
  {
    if i == 0 {
      k := 0;
    } else {
      k := KeptMember(s[1..], i - 1);
      k := if s[0].amount > 0 then k + 1 else k;
    }
  }

  /** PAL_CompressInventory: the kept slots, then empty ones. */
  function Compressed(s: seq<Item>, n: nat): (r: seq<Item>)
    requires n <= |s|
    ensures |r| == |s|
  {
    Kept(s[..n]) + seq(|s| - |Kept(s[..n])|, i => EMPTY)
  }

  lemma PlaceOf(s: seq<Item>, n: nat, k: nat)
    requires Packed(s, n) && k < n
    ensures Has(s, s[k].id) && Search(s, s[k].id) == k
  {
    SearchIs(s, s[k].id, k);
  }

  lemma CompressedPacked(s: seq<Item>, n: nat)
    requires Packed(s, n)
    ensures Packed(Compressed(s, n), |Kept(s[..n])|)
    ensures forall k :: 0 <= k < |Kept(s[..n])| ==> Compressed(s, n)[k].amount > 0
  {
    var t, kept := Compressed(s, n), Kept(s[..n]);
    forall k | 0 <= k < |kept| ensures t[k].id != 0 && t[k].amount > 0 {
      var i := KeptOrigin(s[..n], k);
    }
    forall j, k | 0 <= j < k < |kept| ensures t[j].id != t[k].id {
      var i := KeptOrigin(s[..n], j);
      var i' := KeptOrigin(s[..n], k);
      assert i != i';
    }
  }

  /** Compressing forgets no amount; an item it drops had none. */
  lemma CompressedAmount(s: seq<Item>, n: nat, id: Short)
    requires Packed(s, n)
    ensures Amount(Compressed(s, n), id) == Amount(s, id)
    ensures Has(Compressed(s, n), id) <==> Amount(s, id) > 0
  {
    var t, kept := Compressed(s, n), Kept(s[..n]);
    CompressedPacked(s, n);
    SlotOf(s, n, id);
    SlotOf(t, |kept|, id);
    if Amount(s, id) > 0 {
      var i := Search(s, id);
      var k := KeptMember(s[..n], i);
      PlaceOf(t, |kept|, k);
    } else if Has(t, id) {
      var i := KeptOrigin(s[..n], Search(t, id));
      PlaceOf(s, n, i);
    }
  }

  class Globals {
    const rgInventory: array<Item>
    ghost var used: nat

    ghost predicate Valid()
      reads this, rgInventory
    {
      rgInventory.Length == MAX_INVENTORY && Packed(rgInventory[..], used)
    }

    constructor ()
      ensures Valid() && used == 0 && fresh(rgInventory)
    {
      rgInventory := new Item[MAX_INVENTORY](i => EMPTY);
      used := 0;
    }

    /** The search both PAL_AddItemToInventory and PAL_GetItemAmount start with. */
    method Find(id: Short) returns (index: nat, found: bool)
      requires Valid()
      ensures index == Search(rgInventory[..], id)
      ensures id != 0 ==> found == Has(rgInventory[..], id)
    {
      index, found := 0, false;
      while index < MAX_INVENTORY
        invariant index <= MAX_INVENTORY && !found
        invariant forall i :: 0 <= i < index ==> rgInventory[i].id != id && rgInventory[i].id != 0
      {
        if rgInventory[index].id == id {
          found := true;
          break;
        } else if rgInventory[index].id == 0 {
          break;
        }
        index := index + 1;
      }
      SearchIs(rgInventory[..], id, index);
    }

    /** Adds num of an item, one if num is zero, or removes -num of it. For an item
        that is held, the sum with its amount and the negation of num must fit the C
        int they are computed in. */
    method AddItem(id: Short, num: Int) returns (ok: bool)
      requires Valid()
      requires Has(rgInventory[..], id) ==>
                 -0x8000_0000 < num && Amount(rgInventory[..], id) + num < 0x8000_0000
      modifies this, rgInventory
      ensures Valid()
      ensures forall other: Short :: other != id ==>
                && Has(rgInventory[..], other) == old(Has(rgInventory[..], other))
                && Amount(rgInventory[..], other) == old(Amount(rgInventory[..], other))
      ensures if old(Has(rgInventory[..], id)) || ok then OneSlot(old(rgInventory[..]), rgInventory[..], id)
              else rgInventory[..] == old(rgInventory[..])
      ensures used == old(used) + if ok && !old(Has(rgInventory[..], id)) then 1 else 0
      ensures id == 0 ==> !ok && rgInventory[..] == old(rgInventory[..])
      ensures id != 0 && num >= 0 ==>
                var n := if num == 0 then 1 else num;
                && (ok <==> old(Has(rgInventory[..], id)) || old(used) < MAX_INVENTORY)
                && Amount(rgInventory[..], id) ==
                     (if !ok then 0
                      else if old(Has(rgInventory[..], id)) then Added(old(Amount(rgInventory[..], id)), n)
                      else Min(MAX_AMOUNT, n))
      ensures id != 0 && num < 0 ==>
                && (ok <==> old(Has(rgInventory[..], id)) && old(Amount(rgInventory[..], id)) >= -num)
                && Amount(rgInventory[..], id) == (if ok then old(Amount(rgInventory[..], id)) + num else 0)
    {
      if id == 0 {
        return false;
      }
      var iNum: Int := if num == 0 then 1 else num;
      var index, found := Find(id);
      SlotOf(rgInventory[..], used, id);
      if iNum > 0 {
        if index >= MAX_INVENTORY {
          return false;
        }
        if found {
          var sum := (rgInventory[index].amount + iNum) % 0x1_0000;
          SetTo(index, id, if sum > MAX_AMOUNT then MAX_AMOUNT else sum);
        } else {
          Append(index, id, iNum);
        }
        return true;
      } else {
        if found {
          iNum := iNum * -1;
          if rgInventory[index].amount < iNum {
            SetTo(index, id, 0);
            return false;
          }
          SetTo(index, id, rgInventory[index].amount - iNum);
          return true;
        }
        return false;
      }
    }

    method SetTo(index: nat, id: Short, v: Short)
      requires Valid() && Has(rgInventory[..], id) && index == Search(rgInventory[..], id)
      modifies rgInventory
      ensures Valid() && Has(rgInventory[..], id) && Amount(rgInventory[..], id) == v
      ensures OneSlot(old(rgInventory[..]), rgInventory[..], id)
      ensures forall other: Short :: other != id ==>
                && Has(rgInventory[..], other) == old(Has(rgInventory[..], other))
                && Amount(rgInventory[..], other) == old(Amount(rgInventory[..], other))
    {
      SetAmount(rgInventory[..], used, id, v);
      rgInventory[index] := rgInventory[index].(amount := v);
    }

    method Append(index: nat, id: Short, num: Int)
      requires Valid() && id != 0 && !Has(rgInventory[..], id) && num > 0
      requires index == used < MAX_INVENTORY
      modifies this, rgInventory
      ensures Valid() && Has(rgInventory[..], id) && Amount(rgInventory[..], id) == Min(MAX_AMOUNT, num)
      ensures OneSlot(old(rgInventory[..]), rgInventory[..], id) && used == old(used) + 1
      ensures forall other: Short :: other != id ==>
                && Has(rgInventory[..], other) == old(Has(rgInventory[..], other))
                && Amount(rgInventory[..], other) == old(Amount(rgInventory[..], other))
    {
      var iNum := num;
      ghost var before, item := rgInventory[..], rgInventory[index].(id := id, amount := Min(MAX_AMOUNT, num));
      NewSlot(before, used, id, item);
      rgInventory[index] := rgInventory[index].(id := id);
      if iNum > MAX_AMOUNT {
        iNum := MAX_AMOUNT;
      }
      rgInventory[index] := rgInventory[index].(amount := iNum);
      used := used + 1;
      assert rgInventory[..] == before[index := item];
    }

    method GetItemAmount(item: Short) returns (amount: Short)
      requires Valid()
      ensures amount == Amount(rgInventory[..], item)
    {
      for i := 0 to MAX_INVENTORY
        invariant forall k :: 0 <= k < i ==> rgInventory[k].id != item && rgInventory[k].id != 0
      {
        if rgInventory[i].id == 0 {
          SearchIs(rgInventory[..], item, i);
          return 0;
        }
        if rgInventory[i].id == item {
          SearchIs(rgInventory[..], item, i);
          return rgInventory[i].amount;
        }
      }
      SearchIs(rgInventory[..], item, MAX_INVENTORY);
      return 0;
    }

    method CompressInventory()
      requires Valid()
      modifies this, rgInventory
      ensures Valid() && rgInventory[..] == Compressed(old(rgInventory[..]), old(used))
      ensures forall id: Short :: Amount(rgInventory[..], id) == old(Amount(rgInventory[..], id))
      ensures forall i :: 0 <= i < used ==> rgInventory[i].amount > 0
    {
      ghost var s := rgInventory[..];
      var j := MoveKept();
      ClearFrom(j);
      CompressedPacked(s, used);
      forall id: Short ensures Amount(rgInventory[..], id) == Amount(s, id) {
        CompressedAmount(s, used, id);
      }
      used := j;
    }

    method MoveKept() returns (j: nat)
      requires Valid()
      modifies rgInventory
      ensures j <= MAX_INVENTORY && rgInventory[..j] == Kept(old(rgInventory[..])[..used])
    {
      ghost var s := rgInventory[..];
      j := 0;
      for i := 0 to MAX_INVENTORY
        invariant i <= used && j <= i && rgInventory[i..] == s[i..] && rgInventory[..j] == Kept(s[..i])
      {
        assert rgInventory[i] == rgInventory[i..][0] == s[i..][0] == s[i];
        if rgInventory[i].id == 0 {
          assert i == used;
          return;
        }
        KeptNext(s, i);
        ghost var prefix := rgInventory[..j];
        assert rgInventory[i + 1..] == rgInventory[i..][1..] == s[i..][1..] == s[i + 1..];
        if rgInventory[i].amount > 0 {
          rgInventory[j] := rgInventory[i];
          j := j + 1;
          assert rgInventory[..j] == prefix + [s[i]];
        }
      }
    }

    method ClearFrom(j0: nat)
      requires j0 <= rgInventory.Length == MAX_INVENTORY
      modifies rgInventory
      ensures rgInventory[..] == old(rgInventory[..j0]) + seq(MAX_INVENTORY - j0, i => EMPTY)
    {
      for j := j0 to MAX_INVENTORY
        invariant rgInventory[..j] == old(rgInventory[..j0]) + seq(j - j0, i => EMPTY)
      {
        rgInventory[j] := EMPTY;
        assert rgInventory[..j + 1] == rgInventory[..j] + [EMPTY];
      }
      assert rgInventory[..] == rgInventory[..MAX_INVENTORY];
    }
  }
}
