/** Quadratic_hash_table<int>: a fixed-capacity open-addressing hash set over
    two co-indexed arrays, keys and bin states, with an `erased` counter.

    Every method states its new state as a function of the old one from
    module TableModel, applied at the key's home bin `Hash(obj)`; the
    properties of those functions are proved there.
 */
module HashTable {
  import opened Probing
  import opened TableModel

  class QuadraticHashTable {
    /** The default exponent used by the no-argument constructor. */
    const m: int := 5
    /** Set to 0 at construction and never changed by any operation. */
    const count: int
    const power: int
    const arraySize: int
    const mask: int
    /** Never initialised by either constructor: its first value is arbitrary. */
    var erased: int
    /** Allocated without initialisation: its first contents are arbitrary. */
    const keys: array<int>
    const occupied: array<BinState>

    ghost predicate Valid()
    {
      0 <= power <= 30 && arraySize == Pow2(power) && mask == arraySize - 1
      && keys.Length == arraySize && occupied.Length == arraySize
      && count == 0
    }

    /** The table's mutable state as a value. */
    ghost function Model(): (t: Table)
      reads this, keys, occupied
      requires Valid()
      ensures WellFormed(t) && |t.keys| == arraySize
    {
      Table(keys[..], occupied[..], erased)
    }

    /** Constructor with exponent n: 2^n bins, all UNOCCUPIED. The exponent is
        kept to 30 or less so that `1 << power` and `bin + i` fit in an int. */
    constructor (n: int)
      requires 0 <= n <= 30
      ensures Valid() && power == n && arraySize == Pow2(n)
      ensures fresh(keys) && fresh(occupied)
      ensures forall i :: 0 <= i < occupied.Length ==> occupied[i] == Unoccupied
    {
      count := 0;
      var size := Pow2(n);  // `1 << power`
      var bins := new BinState[size];
      var i := 0;
      while i < size
        invariant 0 <= i <= size
        invariant forall j :: 0 <= j < i ==> bins[j] == Unoccupied
      {
        bins[i] := Unoccupied;
        i := i + 1;
      }
      power := n;
      arraySize := size;
      mask := size - 1;
      keys := new int[size];
      occupied := bins;
    }

    /** Default constructor: exponent m = 5, so 32 bins, all UNOCCUPIED. */
    constructor Default()
      ensures Valid() && power == 5 && arraySize == 32
      ensures fresh(keys) && fresh(occupied)
      ensures forall i :: 0 <= i < occupied.Length ==> occupied[i] == Unoccupied
    {
      count := 0;
      var size := Pow2(m);  // `1 << power`
      var bins := new BinState[size];
      var i := 0;
      while i < size
        invariant 0 <= i <= size
        invariant forall j :: 0 <= j < i ==> bins[j] == Unoccupied
      {
        bins[i] := Unoccupied;
        i := i + 1;
      }
      power := m;
      arraySize := size;
      mask := size - 1;
      keys := new int[size];
      occupied := bins;
    }

    /** size(): `count`, which no operation changes, so always 0. */
    function Size(): (r: int)
      requires Valid()
      ensures r == 0
    {
      count
    }

    /** capacity(): the number of bins, 2^power. */
    function Capacity(): (r: int)
      requires Valid()
      ensures r == Pow2(power) && r == keys.Length && r == occupied.Length
    {
      arraySize
    }

    /** empty(): `count == 0`, so always true. */
    function Empty(): (r: bool)
      requires Valid()
      ensures r
    {
      count == 0
    }

    /** hash(obj): C++'s truncating `obj % capacity`, shifted up by the capacity
        when obj is negative. The result is congruent to obj; it lies in
        [0, capacity) except for negative multiples of the capacity, for which
        it is the capacity itself, one past the last bin. */
    function Hash(obj: int): (r: int)
      requires Valid()
      ensures 0 <= r <= arraySize
      ensures (obj - r) % arraySize == 0
      ensures obj >= 0 ==> r == obj % arraySize
      ensures r == arraySize <==> obj < 0 && obj % arraySize == 0
    {
      var i := obj;
      var c := CRem(i, arraySize);
      if i >= 0 then
        CongruentRemainder(i, c, arraySize);
        c
      else
        ShiftMultiple(i - c, arraySize);
        if c < 0 then
          CongruentRemainder(i, c + arraySize, arraySize);
          c + arraySize
        else
          c + arraySize
    }

    /** bin(n): the key of an OCCUPIED bin, `Type()` (0) for any other. The
        source does no range check, so n must be a bin index. */
    function Bin(n: int): (r: int)
      reads this, keys, occupied
      requires Valid() && 0 <= n < arraySize
      ensures occupied[n] == Occupied ==> r == keys[n] && Tokens(Model())[n] == Value(r)
      ensures occupied[n] != Occupied ==> r == 0
    {
      if occupied[n] == Occupied then keys[n] else 0
    }

    /** member(obj): probes from the home bin for a bin holding obj, in any
        state. Because the triangular probe sequence covers every bin, this is
        the same as obj being anywhere in the key array. */
    method Member(obj: int) returns (found: bool)
      requires Valid() && (obj >= 0 || obj % arraySize != 0)
      ensures found == TableModel.Member(Model(), Hash(obj), obj)
      ensures found <==> obj in keys[..]
    {
      var bin := Hash(obj);
      ghost var home := bin;
      MemberIffStored(Model(), home, obj, power);
      if keys[bin] == obj {
        ProbeZero(home, arraySize);
        return true;
      }
      var i := 0;
      while i < Capacity()
        invariant 0 <= i <= arraySize
        invariant bin == if i == 0 then home else Probe(home, i - 1, arraySize)
        invariant forall k :: 0 <= k < i ==> keys[Probe(home, k, arraySize)] != obj
      {
        NextProbe(home, i, arraySize);
        bin := (bin + i) % Capacity();
        if keys[bin] == obj {
          return true;
        }
        i := i + 1;
      }
      return false;
    }

    /** The store every successful insert ends with: `array[h] = obj;
        occupied[h] = OCCUPIED;`. */
    method Place(h: int, obj: int)
      requires Valid() && 0 <= h < arraySize
      modifies keys, occupied
      ensures Model() == old(Model()).(keys := old(keys[..])[h := obj],
                                       states := old(occupied[..])[h := Occupied])
    {
      keys[h] := obj;
      occupied[h] := Occupied;
      assert keys[..] == old(keys[..])[h := obj];
    }

    /** insert(obj): `ok` is false where the source throws overflow, with the
        table unchanged. */
    method Insert(obj: int) returns (ok: bool)
      requires Valid() && (obj >= 0 || obj % arraySize != 0)
      modifies this`erased, keys, occupied
      ensures Valid()
      ensures ok == TableModel.Insert(old(Model()), Hash(obj), obj).Some?
      ensures ok ==> Model() == TableModel.Insert(old(Model()), Hash(obj), obj).value
      ensures !ok ==> Model() == old(Model())
    {
      var h := Hash(obj);
      ghost var home := h;
      ghost var t := Model();
      match occupied[h]
      case Unoccupied =>
        Place(h, obj);
        return true;
      case Occupied =>
        var i := 0;
        while i < Capacity()
          invariant 0 <= i <= arraySize
          invariant h == if i == 0 then home else Probe(home, i - 1, arraySize)
          invariant forall k :: 0 <= k < i ==> t.states[Probe(home, k, arraySize)] == Occupied
          invariant Model() == t
        {
          NextProbe(home, i, arraySize);
          h := (h + i) % Capacity();
          if occupied[h] == Unoccupied || occupied[h] == Erased {
            InsertAtProbe(t, home, obj, i);
            Place(h, obj);
            // The source now runs `if (occupied[h] == ERASED) erased--;`, testing the
            // state it has just overwritten, so `erased` is never decremented here.
            return true;
          }
          i := i + 1;
        }
        InsertAllProbed(t, home, obj);
        // throw overflow()
        return false;
      case Erased =>
        Place(h, obj);
        erased := erased - 1;
        return true;
    }

    /** erase(obj): marks the first probed bin holding obj ERASED, whatever its
        state, and counts one more erasure; false if no bin holds obj. */
    method Erase(obj: int) returns (removed: bool)
      requires Valid() && (obj >= 0 || obj % arraySize != 0)
      modifies this`erased, occupied
      ensures Valid()
      ensures (Model(), removed) == TableModel.Erase(old(Model()), Hash(obj), obj)
    {
      var bin := Hash(obj);
      ghost var home := bin;
      ghost var t := Model();
      if keys[bin] == obj {
        ProbeZero(home, arraySize);
        EraseAtProbe(t, home, obj, 0);
        occupied[bin] := Erased;
        erased := erased + 1;
        assert occupied[..] == t.states[bin := Erased];
        assert Model() == Table(t.keys, t.states[bin := Erased], t.erased + 1);
        return true;
      }
      var i := 0;
      while i < Capacity()
        invariant 0 <= i <= arraySize
        invariant bin == if i == 0 then home else Probe(home, i - 1, arraySize)
        invariant forall k :: 0 <= k < i ==> t.keys[Probe(home, k, arraySize)] != obj
        invariant Model() == t
      {
        NextProbe(home, i, arraySize);
        bin := (bin + i) % Capacity();
        if keys[bin] == obj {
          EraseAtProbe(t, home, obj, i);
          occupied[bin] := Erased;
          erased := erased + 1;
          assert occupied[..] == t.states[bin := Erased];
          return true;
        }
        i := i + 1;
      }
      EraseAllProbed(t, home, obj);
      return false;
    }

    /** clear(): every OCCUPIED bin becomes ERASED, one erasure counted for each. */
    method Clear()
      requires Valid()
      modifies this`erased, occupied
      ensures Valid()
      ensures Model() == TableModel.Clear(old(Model()))
    {
      ghost var s := occupied[..];
      var i := 0;
      while i < Capacity()
        invariant 0 <= i <= arraySize
        invariant forall j :: 0 <= j < i ==> occupied[j] == Retire(s[j])
        invariant forall j :: i <= j < arraySize ==> occupied[j] == s[j]
        invariant erased == old(erased) + Count(s[..i], Occupied)
      {
        assert s[..i + 1][..i] == s[..i];
        if occupied[i] == Occupied {
          occupied[i] := Erased;
          erased := erased + 1;
        }
        i := i + 1;
      }
      assert s[..i] == s;
      assert occupied[..] == RetireAll(s);
    }

    /** operator<<: appends one token per bin, in bin order, to the stream. */
    method WriteTo(out: string) returns (res: string)
      requires Valid()
      ensures res == out + Text(Tokens(Model()))
    {
      ghost var t := Model();
      ghost var toks := Tokens(t);
      res := out;
      var i := 0;
      while i < Capacity()
        invariant 0 <= i <= arraySize
        invariant res == out + Text(toks[..i])
      {
        var word;
        match occupied[i] {
          case Unoccupied => word := "-";
          case Erased => word := "x";
          case Occupied => word := IntToString(keys[i]);
        }
        assert toks[i] == TokenOf(t.states[i], t.keys[i]);
        StepOut(out, res, toks, i, word);
        res := res + (word + " ");
        i := i + 1;
      }
      assert toks[..i] == toks;
    }
  }
}
