/** The EIP-2929 access list: every warm address maps to -1 or to the index of its
    slot set in a vector that is only ever appended to and truncated.  */
module AccessLists {
  import opened Types

  datatype Warm = Warm(addresses: map<Address, int>, slots: seq<set<Hash>>) {

    /** Every index is in range, and every slot set is non-empty and owned by exactly one address. */
    ghost predicate WellFormed() {
      && (forall a :: a in addresses ==> -1 <= addresses[a] < |slots|)
      && (forall a, b :: a in addresses && b in addresses && addresses[a] == addresses[b] >= 0 ==> a == b)
      && (forall i :: 0 <= i < |slots| ==> slots[i] != {})
      && (forall i :: 0 <= i < |slots| ==> i in addresses.Values)
    }

    predicate ContainsAddress(a: Address) {
      a in addresses
    }

    predicate ContainsSlot(a: Address, s: Hash) {
      a in addresses && 0 <= addresses[a] < |slots| && s in slots[addresses[a]]
    }

    function AddAddress(a: Address): Warm {
      if a in addresses then this else this.(addresses := addresses[a := -1])
    }

    function AddSlot(a: Address, s: Hash): Warm {
      if a !in addresses || addresses[a] == -1 then
        Warm(addresses[a := |slots|], slots + [{s}])
      else if 0 <= addresses[a] < |slots| then
        this.(slots := slots[addresses[a] := slots[addresses[a]] + {s}])
      else this
    }

    /** What reverting an added slot may assume: the address still points at a slot set. */
    predicate HasSlots(a: Address) {
      a in addresses && 0 <= addresses[a] < |slots|
    }

    function DeleteSlot(a: Address, s: Hash): Warm
      requires HasSlots(a)
    {
      var i := addresses[a];
      var rest := slots[i] - {s};
      if rest == {} then Warm(addresses[a := -1], slots[..i])
      else this.(slots := slots[i := rest])
    }

    function DeleteAddress(a: Address): Warm {
      this.(addresses := addresses - {a})
    }
  }

  const EMPTY := Warm(map[], [])

  lemma AddAddressKeepsWellFormed(w: Warm, a: Address)
    requires w.WellFormed()
    ensures w.AddAddress(a).WellFormed()
    ensures forall b :: w.AddAddress(a).ContainsAddress(b) <==> w.ContainsAddress(b) || b == a
    ensures forall b, s :: w.AddAddress(a).ContainsSlot(b, s) == w.ContainsSlot(b, s)
  {
    if a !in w.addresses {
      var v := w.AddAddress(a);
      forall i | 0 <= i < |v.slots| ensures i in v.addresses.Values {
        assert i in w.addresses.Values;
        var b :| b in w.addresses && w.addresses[b] == i;
        assert b in v.addresses && v.addresses[b] == i;
      }
    }
  }

  lemma AddSlotKeepsWellFormed(w: Warm, a: Address, s: Hash)
    requires w.WellFormed()
    ensures w.AddSlot(a, s).WellFormed()
  {
    var v := w.AddSlot(a, s);
    forall i | 0 <= i < |v.slots| ensures i in v.addresses.Values {
      if i < |w.slots| {
        assert i in w.addresses.Values;
        var b :| b in w.addresses && w.addresses[b] == i;
        assert b in v.addresses && v.addresses[b] == i;
      } else {
        assert a in v.addresses && v.addresses[a] == i;
      }
    }
  }

  /** Adding a slot warms that slot and its address and nothing else. */
  lemma AddSlotWarmsOneSlot(w: Warm, a: Address, s: Hash, b: Address, t: Hash)
    requires w.WellFormed()
    ensures w.AddSlot(a, s).ContainsAddress(b) <==> w.ContainsAddress(b) || b == a
    ensures w.AddSlot(a, s).ContainsSlot(b, t) <==> w.ContainsSlot(b, t) || (b == a && t == s)
  {
  }

  /** Undoing in journal order gives back the exact list: deleting the address just added ... */
  lemma DeleteAddressUndoesAddAddress(w: Warm, a: Address)
    requires a !in w.addresses
    ensures w.AddAddress(a).DeleteAddress(a) == w
  {
    assert (w.addresses[a := -1]) - {a} == w.addresses;
  }

  /** ... and deleting the slot just added, whether or not it opened a new slot set. */
  lemma DeleteSlotUndoesAddSlot(w: Warm, a: Address, s: Hash)
    requires w.WellFormed() && a in w.addresses && !w.ContainsSlot(a, s)
    ensures w.AddSlot(a, s).HasSlots(a)
    ensures w.AddSlot(a, s).DeleteSlot(a, s) == w
  {
    var v := w.AddSlot(a, s);
    var i := v.addresses[a];
    if w.addresses[a] == -1 {
      assert v.slots[i] - {s} == {};
      assert v.slots[..i] == w.slots;
      assert v.addresses[a := -1] == w.addresses;
    } else {
      assert v.slots[i] - {s} == w.slots[i];
      assert v.slots[i := w.slots[i]] == w.slots;
    }
  }

  /** Out of journal order the truncation can drop other addresses' slots. It leaves them
      alone exactly when the slot set survives or is the last one. */
  lemma DeleteSlotSparesOthersIff(w: Warm, a: Address, s: Hash)
    requires w.WellFormed() && w.HasSlots(a)
    ensures (forall b, t :: b != a ==> w.DeleteSlot(a, s).ContainsSlot(b, t) == w.ContainsSlot(b, t))
       <==> (w.slots[w.addresses[a]] - {s} != {} || w.addresses[a] == |w.slots| - 1)
  {
    var i := w.addresses[a];
    var v := w.DeleteSlot(a, s);
    if w.slots[i] - {s} == {} && i < |w.slots| - 1 {
      assert i + 1 in w.addresses.Values;
      var b :| b in w.addresses && w.addresses[b] == i + 1;
      var t :| t in w.slots[i + 1];
      assert w.ContainsSlot(b, t) && !v.ContainsSlot(b, t);
    }
  }

  /** The failing case: the older of two slot sets is emptied first. */
  lemma OutOfOrderDropsSlot(a: Address, b: Address, s: Hash, t: Hash)
    requires a != b
    ensures var w := EMPTY.AddSlot(a, s).AddSlot(b, t);
            w.HasSlots(a) && w.ContainsSlot(b, t) && !w.DeleteSlot(a, s).ContainsSlot(b, t)
  {
    var w := EMPTY.AddSlot(a, s).AddSlot(b, t);
    assert w.slots == [{s}, {t}];
  }

  class AccessList {
    var addresses: map<Address, int>
    var slots: seq<set<Hash>>

    ghost function Model(): Warm
      reads this
    {
      Warm(addresses, slots)
    }

    constructor ()
      ensures Model() == EMPTY
    {
      addresses, slots := map[], [];
    }

    method Contains(address: Address, slot: Hash) returns (addressOk: bool, slotOk: bool)
      requires Model().WellFormed()
      ensures addressOk == Model().ContainsAddress(address)
      ensures slotOk == Model().ContainsSlot(address, slot)
    {
      if address !in addresses {
        return false, false;
      }
      var idx := addresses[address];
      if idx == -1 {
        return true, false;
      }
      return true, slot in slots[idx];
    }

    method AddAddress(address: Address) returns (added: bool)
      modifies this
      ensures added == !old(Model()).ContainsAddress(address)
      ensures Model() == old(Model()).AddAddress(address)
    {
      if address in addresses {
        return false;
      }
      addresses := addresses[address := -1];
      return true;
    }

    method AddSlot(address: Address, slot: Hash) returns (addressAdded: bool, slotAdded: bool)
      requires Model().WellFormed()
      modifies this
      ensures addressAdded == !old(Model()).ContainsAddress(address)
      ensures slotAdded == !old(Model()).ContainsSlot(address, slot)
      ensures Model() == old(Model()).AddSlot(address, slot)
    {
      if address !in addresses || addresses[address] == -1 {
        addressAdded := address !in addresses;
        addresses := addresses[address := |slots|];
        slots := slots + [{slot}];
        return addressAdded, true;
      }
      var idx := addresses[address];
      if slot !in slots[idx] {
        slots := slots[idx := slots[idx] + {slot}];
        return false, true;
      }
      assert slots[idx] + {slot} == slots[idx];
      return false, false;
    }

    method DeleteSlot(address: Address, slot: Hash)
      requires Model().HasSlots(address)
      modifies this
      ensures Model() == old(Model()).DeleteSlot(address, slot)
    {
      var idx := addresses[address];
      slots := slots[idx := slots[idx] - {slot}];
      if slots[idx] == {} {
        assert slots[..idx] == old(slots)[..idx];
        slots := slots[..idx];
        addresses := addresses[address := -1];
      }
    }

    method DeleteAddress(address: Address)
      modifies this
      ensures Model() == old(Model()).DeleteAddress(address)
    {
      addresses := addresses - {address};
    }
  }
}
