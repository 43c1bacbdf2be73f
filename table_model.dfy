/** The bins of a Quadratic_hash_table<int> as a value, and what each of the
    table's operations does to that value.

    A table's mutable state is the key array, the parallel array of bin
    states and the `erased` counter; `count`, the capacity and the exponent
    never change after construction. Every operation below takes the home
    bin h of its key as a parameter (the class computes it with its hash
    function), so the properties proved here hold for any home bin.
 */
module TableModel {
  import opened Probing

  /** `bin_state_t` of the source. */
  datatype BinState = Unoccupied | Occupied | Erased

  datatype Option<T> = None | Some(value: T)

  /** The array of keys, the array of bin states, and the `erased` counter. */
  datatype Table = Table(keys: seq<int>, states: seq<BinState>, erased: int)

  predicate WellFormed(t: Table)
  {
    |t.keys| == |t.states| > 0
  }

  // ----- probing searches -----

  /** The first probe index k >= j whose bin holds obj, whatever the bin's state. */
  function FindKey(keys: seq<int>, h: int, obj: int, j: nat): (r: Option<nat>)
    requires |keys| > 0
    ensures r.Some? ==> j <= r.value < |keys| && keys[Probe(h, r.value, |keys|)] == obj
    ensures r.Some? ==> forall k :: j <= k < r.value ==> keys[Probe(h, k, |keys|)] != obj
    ensures r.None? ==> forall k :: j <= k < |keys| ==> keys[Probe(h, k, |keys|)] != obj
    decreases |keys| - j
  {
    if j >= |keys| then None
    else if keys[Probe(h, j, |keys|)] == obj then Some(j)
    else FindKey(keys, h, obj, j + 1)
  }

  /** The first probe index k >= j whose bin is UNOCCUPIED or ERASED. */
  function FindVacant(states: seq<BinState>, h: int, j: nat): (r: Option<nat>)
    requires |states| > 0
    ensures r.Some? ==> j <= r.value < |states| && states[Probe(h, r.value, |states|)] != Occupied
    ensures r.Some? ==> forall k :: j <= k < r.value ==> states[Probe(h, k, |states|)] == Occupied
    ensures r.None? ==> forall k :: j <= k < |states| ==> states[Probe(h, k, |states|)] == Occupied
    decreases |states| - j
  {
    if j >= |states| then None
    else if states[Probe(h, j, |states|)] != Occupied then Some(j)
    else FindVacant(states, h, j + 1)
  }

  // ----- the operations -----

  /** member: some probe from h reaches a bin holding obj. The bin's state is
      not consulted, so ERASED and never-written bins can match. */
  function Member(t: Table, h: int, obj: int): (r: bool)
    requires WellFormed(t)
    ensures r <==> exists k :: 0 <= k < |t.keys| && t.keys[Probe(h, k, |t.keys|)] == obj
  {
    FindKey(t.keys, h, obj, 0).Some?
  }

  /** The bin insert writes to, or None for the overflow exception: the home
      bin if it is not OCCUPIED, otherwise the first probed bin that is not. */
  function InsertTarget(states: seq<BinState>, h: nat): (r: Option<nat>)
    requires h < |states|
    ensures r.Some? ==> r.value < |states| && states[r.value] != Occupied
    ensures states[h] != Occupied ==> r == Some(h)
    ensures r.None? ==> forall k :: 0 <= k < |states| ==> states[Probe(h, k, |states|)] == Occupied
    ensures states[h] == Occupied && r.Some? ==>
      exists k :: 0 <= k < |states| && r.value == Probe(h, k, |states|)
        && forall j :: 0 <= j < k ==> states[Probe(h, j, |states|)] == Occupied
  {
    if states[h] != Occupied then Some(h)
    else match FindVacant(states, h, 0)
      case Some(k) => Some(Probe(h, k, |states|))
      case None => None
  }

  /** insert: write obj into the target bin and mark it OCCUPIED, with no
      duplicate check. `erased` drops by one only when the HOME bin was ERASED:
      in the probing branch the source tests the bin's state after setting it
      to OCCUPIED, so a reused tombstone there is never subtracted. */
  function Insert(t: Table, h: nat, obj: int): (r: Option<Table>)
    requires WellFormed(t) && h < |t.keys|
    ensures r.Some? ==> WellFormed(r.value) && |r.value.keys| == |t.keys|
    ensures r.Some? ==> exists b :: 0 <= b < |t.keys| && t.states[b] != Occupied
                         && r.value.keys == t.keys[b := obj] && r.value.states == t.states[b := Occupied]
    ensures r.Some? ==> r.value.erased == t.erased - (if t.states[h] == Erased then 1 else 0)
  {
    match InsertTarget(t.states, h)
    case None => None
    case Some(b) =>
      Some(Table(t.keys[b := obj], t.states[b := Occupied],
                 t.erased - (if t.states[h] == Erased then 1 else 0)))
  }

  /** erase: mark the first probed bin holding obj (state ignored) ERASED and
      count one more erasure; the key itself stays in the array. */
  function Erase(t: Table, h: int, obj: int): (r: (Table, bool))
    requires WellFormed(t)
    ensures WellFormed(r.0) && r.0.keys == t.keys
    ensures r.1 <==> Member(t, h, obj)
    ensures !r.1 ==> r.0 == t
    ensures r.1 ==> r.0.erased == t.erased + 1
    ensures r.1 ==> exists b :: 0 <= b < |t.keys| && t.keys[b] == obj && r.0.states == t.states[b := Erased]
  {
    match FindKey(t.keys, h, obj, 0)
    case None => (t, false)
    case Some(k) =>
      var b := Probe(h, k, |t.keys|);
      (Table(t.keys, t.states[b := Erased], t.erased + 1), true)
  }

  // ----- the exits of the probing loops -----

  /** insert stops at probe i when the home bin and probes 0..i-1 are
      OCCUPIED and probe i is not; erased is left as it was. */
  lemma InsertAtProbe(t: Table, h: nat, obj: int, i: nat)
    requires WellFormed(t) && h < |t.keys| && i < |t.keys| && t.states[h] == Occupied
    requires forall k :: 0 <= k < i ==> t.states[Probe(h, k, |t.keys|)] == Occupied
    requires t.states[Probe(h, i, |t.keys|)] != Occupied
    ensures var b := Probe(h, i, |t.keys|);
      Insert(t, h, obj) == Some(Table(t.keys[b := obj], t.states[b := Occupied], t.erased))
  {
    assert FindVacant(t.states, h, 0) == Some(i);
  }

  /** insert overflows when every probe from an OCCUPIED home bin is OCCUPIED. */
  lemma InsertAllProbed(t: Table, h: nat, obj: int)
    requires WellFormed(t) && h < |t.keys| && t.states[h] == Occupied
    requires forall k :: 0 <= k < |t.keys| ==> t.states[Probe(h, k, |t.keys|)] == Occupied
    ensures Insert(t, h, obj) == None
  {
    assert FindVacant(t.states, h, 0) == None;
  }

  /** erase stops at the first probe i whose bin holds obj. */
  lemma EraseAtProbe(t: Table, h: int, obj: int, i: nat)
    requires WellFormed(t) && i < |t.keys| && t.keys[Probe(h, i, |t.keys|)] == obj
    requires forall k :: 0 <= k < i ==> t.keys[Probe(h, k, |t.keys|)] != obj
    ensures var b := Probe(h, i, |t.keys|);
      Erase(t, h, obj) == (Table(t.keys, t.states[b := Erased], t.erased + 1), true)
  {
    assert FindKey(t.keys, h, obj, 0) == Some(i);
  }

  /** erase changes nothing when no probe reaches obj. */
  lemma EraseAllProbed(t: Table, h: int, obj: int)
    requires WellFormed(t)
    requires forall k :: 0 <= k < |t.keys| ==> t.keys[Probe(h, k, |t.keys|)] != obj
    ensures Erase(t, h, obj) == (t, false)
  {
    assert FindKey(t.keys, h, obj, 0) == None;
  }

  /** The state clear gives a bin: OCCUPIED becomes ERASED, the rest stay. */
  function Retire(s: BinState): BinState
  {
    if s == Occupied then Erased else s
  }

  function RetireAll(states: seq<BinState>): (r: seq<BinState>)
    ensures |r| == |states|
  {
    seq(|states|, i requires 0 <= i < |states| => Retire(states[i]))
  }

  /** clear: every OCCUPIED bin becomes ERASED and `erased` grows by their number. */
  function Clear(t: Table): (r: Table)
    requires WellFormed(t)
    ensures WellFormed(r) && r.keys == t.keys
    ensures forall i :: 0 <= i < |t.states| ==> r.states[i] != Occupied
    ensures forall i :: 0 <= i < |t.states| && t.states[i] != Occupied ==> r.states[i] == t.states[i]
    ensures forall i :: 0 <= i < |t.states| && t.states[i] == Occupied ==> r.states[i] == Erased
    ensures r.erased == t.erased + Count(t.states, Occupied)
    ensures Count(r.states, Erased) == Count(t.states, Erased) + Count(t.states, Occupied)
  {
    CountRetireAll(t.states);
    Table(t.keys, RetireAll(t.states), t.erased + Count(t.states, Occupied))
  }

  // ----- counting bins -----

  /** The number of bins in state x. */
  function Count(states: seq<BinState>, x: BinState): (r: nat)
    ensures r <= |states|
  {
    if |states| == 0 then 0
    else Count(states[..|states| - 1], x) + (if states[|states| - 1] == x then 1 else 0)
  }

  /** How far the `erased` counter is from the number of ERASED bins. The
      source never initialises `erased`, so this starts arbitrary; the lemmas
      below say exactly when an operation moves it. */
  function Drift(t: Table): int
  {
    t.erased - Count(t.states, Erased)
  }

  lemma {:induction false} CountUpdate(s: seq<BinState>, i: nat, v: BinState, x: BinState)
    requires i < |s|
    ensures Count(s[i := v], x) == Count(s, x) - (if s[i] == x then 1 else 0) + (if v == x then 1 else 0)
  {
    var n := |s|;
    var s' := s[i := v];
    assert Count(s', x) == Count(s'[..n - 1], x) + (if s'[n - 1] == x then 1 else 0);
    assert Count(s, x) == Count(s[..n - 1], x) + (if s[n - 1] == x then 1 else 0);
    if i < n - 1 {
      assert s'[..n - 1] == s[..n - 1][i := v];
      CountUpdate(s[..n - 1], i, v, x);
    } else {
      assert s'[..n - 1] == s[..n - 1];
    }
  }

  lemma {:induction false} CountRetireAll(s: seq<BinState>)
    ensures Count(RetireAll(s), Occupied) == 0
    ensures Count(RetireAll(s), Erased) == Count(s, Erased) + Count(s, Occupied)
  {
    if |s| > 0 {
      var n := |s|;
      assert RetireAll(s)[..n - 1] == RetireAll(s[..n - 1]);
      CountRetireAll(s[..n - 1]);
    }
  }

  // ----- what the probe sequence buys: whole-table scans -----

  /** With 2^n bins, member from any home bin answers whether obj is stored in
      any bin at all, whatever the bins' states. */
  lemma MemberIffStored(t: Table, h: int, obj: int, n: nat)
    requires WellFormed(t) && |t.keys| == Pow2(n)
    ensures Member(t, h, obj) <==> obj in t.keys
  {
    if obj in t.keys {
      var b :| 0 <= b < |t.keys| && t.keys[b] == obj;
      var k := ProbeCovers(h, n, b);
      assert t.keys[Probe(h, k, |t.keys|)] == obj;
    }
  }

  /** insert throws overflow exactly when every bin is OCCUPIED: the probing
      loop cannot miss a free bin. */
  lemma InsertOverflowIffFull(t: Table, h: nat, obj: int, n: nat)
    requires WellFormed(t) && h < |t.keys| && |t.keys| == Pow2(n)
    ensures Insert(t, h, obj).None? <==> forall i :: 0 <= i < |t.states| ==> t.states[i] == Occupied
  {
    if Insert(t, h, obj).None? {
      forall i | 0 <= i < |t.states|
        ensures t.states[i] == Occupied
      {
        var k := ProbeCovers(h, n, i);
      }
    }
  }

  /** After a successful insert of obj, member(obj) holds from any home bin. */
  lemma MemberAfterInsert(t: Table, h: nat, obj: int, h': int, n: nat)
    requires WellFormed(t) && h < |t.keys| && |t.keys| == Pow2(n)
    ensures Insert(t, h, obj).Some? ==> Member(Insert(t, h, obj).value, h', obj)
  {
    if Insert(t, h, obj).Some? {
      var t' := Insert(t, h, obj).value;
      var b :| 0 <= b < |t.keys| && t'.keys == t.keys[b := obj];
      assert t'.keys[b] == obj;
      MemberIffStored(t', h', obj, n);
    }
  }

  /** Every successful insert adds an OCCUPIED bin, even when obj is already
      a member: insert never checks for duplicates. */
  lemma InsertAddsOccupied(t: Table, h: nat, obj: int)
    requires WellFormed(t) && h < |t.keys|
    ensures Insert(t, h, obj).Some? ==>
              Count(Insert(t, h, obj).value.states, Occupied) == Count(t.states, Occupied) + 1
  {
    if Insert(t, h, obj).Some? {
      var b := InsertTarget(t.states, h).value;
      CountUpdate(t.states, b, Occupied, Occupied);
    }
  }

  /** After erase, member(obj) gives the same answer as before: erase only
      changes a state, and member does not read states. */
  lemma MemberAfterErase(t: Table, h: int, obj: int, h': int, x: int)
    requires WellFormed(t)
    ensures Member(Erase(t, h, obj).0, h', x) == Member(t, h', x)
    ensures Erase(Erase(t, h, obj).0, h, obj).1 == Erase(t, h, obj).1
  {
    var t' := Erase(t, h, obj).0;
    assert t'.keys == t.keys;
  }

  // ----- tombstone accounting -----

  /** insert keeps `erased` in step with the ERASED bins except when the
      probing branch reuses a tombstone: then `erased` overcounts by one more. */
  lemma InsertDrift(t: Table, h: nat, obj: int)
    requires WellFormed(t) && h < |t.keys|
    ensures Insert(t, h, obj).Some? ==>
              var b := InsertTarget(t.states, h).value;
              Drift(Insert(t, h, obj).value)
                == Drift(t) + (if b != h && t.states[b] == Erased then 1 else 0)
  {
    if Insert(t, h, obj).Some? {
      var b := InsertTarget(t.states, h).value;
      CountUpdate(t.states, b, Occupied, Erased);
    }
  }

  /** erase overcounts by one when the matching bin was already ERASED
      (erasing the same key twice); otherwise `erased` follows the bins. */
  lemma EraseDrift(t: Table, h: int, obj: int)
    requires WellFormed(t) && Member(t, h, obj)
    ensures var b := Probe(h, FindKey(t.keys, h, obj, 0).value, |t.keys|);
            Drift(Erase(t, h, obj).0) == Drift(t) + (if t.states[b] == Erased then 1 else 0)
  {
    var b := Probe(h, FindKey(t.keys, h, obj, 0).value, |t.keys|);
    CountUpdate(t.states, b, Erased, Erased);
  }

  /** clear keeps `erased` in step with the ERASED bins, and a second clear
      changes nothing. */
  lemma ClearDrift(t: Table)
    requires WellFormed(t)
    ensures Drift(Clear(t)) == Drift(t)
    ensures Count(Clear(t).states, Occupied) == 0
    ensures Clear(Clear(t)) == Clear(t)
  {
    CountRetireAll(t.states);
    var c := Clear(t);
    assert RetireAll(c.states) == c.states;
  }

  // ----- operator<< -----

  /** One token per bin: "-" for UNOCCUPIED, "x" for ERASED, the key otherwise. */
  datatype Token = Vacant | Tombstone | Value(key: int)

  function TokenOf(state: BinState, key: int): Token
  {
    match state
    case Unoccupied => Vacant
    case Erased => Tombstone
    case Occupied => Value(key)
  }

  function Tokens(t: Table): (r: seq<Token>)
    requires |t.keys| == |t.states|
    ensures |r| == |t.states|
  {
    seq(|t.states|, i requires 0 <= i < |t.states| => TokenOf(t.states[i], t.keys[i]))
  }

  /** The rendering reads a key only where its bin is OCCUPIED: two tables with
      the same states and the same OCCUPIED keys print the same text. */
  lemma TokensReadOccupiedKeys(t: Table, u: Table)
    requires WellFormed(t) && u.states == t.states && |u.keys| == |t.keys|
    requires forall i :: 0 <= i < |t.keys| && t.states[i] == Occupied ==> u.keys[i] == t.keys[i]
    ensures Text(Tokens(u)) == Text(Tokens(t))
  {
    forall i | 0 <= i < |t.states|
      ensures Tokens(u)[i] == Tokens(t)[i]
    {
    }
    assert Tokens(u) == Tokens(t);
  }

  function DigitChar(d: nat): char
    requires d < 10
  {
    "0123456789"[d]
  }

  predicate IsDigit(c: char)
  {
    '0' <= c <= '9'
  }

  /** Decimal text of n, as `out << n` writes it. */
  function NatToString(n: nat): (r: string)
    ensures |r| > 0 && forall i :: 0 <= i < |r| ==> IsDigit(r[i])
    ensures n > 0 ==> r[0] != '0'
    ensures |r| > 1 ==> r[0] != '0'
  {
    if n < 10 then [DigitChar(n)] else NatToString(n / 10) + [DigitChar(n % 10)]
  }

  /** Decimal text of a key, with a leading `-` exactly when it is negative. */
  function IntToString(i: int): (r: string)
    ensures |r| > 0 && (r[0] == '-' <==> i < 0)
    ensures forall j :: 0 < j < |r| ==> IsDigit(r[j])
    ensures |r| > 1 && r[0] != '-' ==> r[0] != '0'
  {
    if i < 0 then "-" + NatToString(-i) else NatToString(i)
  }

  /** The text a token is written as, without its trailing space. */
  function Word(tok: Token): string
  {
    match tok
    case Vacant => "-"
    case Tombstone => "x"
    case Value(k) => IntToString(k)
  }

  /** The stream output: every token's word followed by a space. */
  function Text(toks: seq<Token>): string
  {
    if toks == [] then "" else Word(toks[0]) + " " + Text(toks[1..])
  }

  lemma {:induction false} TextAppend(toks: seq<Token>, tok: Token)
    ensures Text(toks + [tok]) == Text(toks) + (Word(tok) + " ")
  {
    if toks == [] {
      assert [tok][1..] == [];
    } else {
      var w, rest := Word(toks[0]) + " ", toks[1..];
      assert (toks + [tok])[0] == toks[0];
      assert (toks + [tok])[1..] == rest + [tok];
      assert Text(toks + [tok]) == w + Text(rest + [tok]);
      TextAppend(rest, tok);
      ConcatAssoc(w, Text(rest), Word(tok) + " ");
    }
  }

  /** Writing the token at index i extends the text of the first i tokens. */
  lemma StepText(toks: seq<Token>, i: nat)
    requires i < |toks|
    ensures Text(toks[..i + 1]) == Text(toks[..i]) + (Word(toks[i]) + " ")
  {
    assert toks[..i + 1] == toks[..i] + [toks[i]];
    TextAppend(toks[..i], toks[i]);
  }

  /** The step of a loop that appends one word at a time after a prefix. */
  lemma StepOut(out: string, before: string, toks: seq<Token>, i: nat, word: string)
    requires i < |toks| && before == out + Text(toks[..i]) && word == Word(toks[i])
    ensures before + (word + " ") == out + Text(toks[..i + 1])
  {
    StepText(toks, i);
    ConcatAssoc(out, Text(toks[..i]), Word(toks[i]) + " ");
  }

  lemma ConcatAssoc(x: string, y: string, z: string)
    ensures (x + y) + z == x + (y + z)
  {
  }

  // ----- reading the output back -----

  function DigitValue(c: char): nat
  {
    if IsDigit(c) then (c as int) - ('0' as int) else 0
  }

  function ParseNat(s: string): nat
  {
    if |s| == 0 then 0 else ParseNat(s[..|s| - 1]) * 10 + DigitValue(s[|s| - 1])
  }

  function ParseWord(w: string): Token
  {
    if w == "-" then Vacant
    else if w == "x" then Tombstone
    else if |w| > 0 && w[0] == '-' then Value(0 - ParseNat(w[1..]))
    else Value(ParseNat(w))
  }

  /** The length of the leading run of non-space characters. */
  function WordLength(s: string): (n: nat)
    ensures n <= |s|
  {
    if s == [] || s[0] == ' ' then 0 else 1 + WordLength(s[1..])
  }

  /** Split the output at spaces and read each word back as a token. */
  function Decode(s: string): seq<Token>
    decreases |s|
  {
    if s == [] then []
    else
      var n := WordLength(s);
      [ParseWord(s[..n])] + (if n < |s| then Decode(s[n + 1..]) else [])
  }

  lemma {:induction false} ParseNatRoundTrip(n: nat)
    ensures ParseNat(NatToString(n)) == n
  {
    if n >= 10 {
      var s := NatToString(n);
      assert s[..|s| - 1] == NatToString(n / 10);
      ParseNatRoundTrip(n / 10);
    }
  }

  lemma ParseWordRoundTrip(tok: Token)
    ensures ParseWord(Word(tok)) == tok
  {
    if tok.Value? {
      var k := tok.key;
      if k < 0 {
        NegativeWord(k);
      } else {
        var w := NatToString(k);
        assert IsDigit(w[0]);
        assert w != "-" && w != "x";
        ParseNatRoundTrip(k);
      }
    }
  }

  lemma NegativeWord(k: int)
    requires k < 0
    ensures ParseWord(IntToString(k)) == Value(k)
  {
    var m: nat := -k;
    var d := NatToString(m);
    var w := IntToString(k);
    assert w == "-" + d;
    assert |w| > 1 && w[0] == '-' && w[1..] == d;
    assert w != "-" && w != "x";
    ParseNatRoundTrip(m);
  }

  lemma {:induction false} WordLengthOfWord(w: string, rest: string)
    requires forall i :: 0 <= i < |w| ==> w[i] != ' '
    ensures WordLength(w + " " + rest) == |w|
  {
    if w != [] {
      assert (w + " " + rest)[1..] == w[1..] + " " + rest;
      WordLengthOfWord(w[1..], rest);
    }
  }

  lemma WordHasNoSpace(tok: Token)
    ensures forall i :: 0 <= i < |Word(tok)| ==> Word(tok)[i] != ' '
  {
  }

  /** The output of operator<< determines the tokens it was made from: the
      bins' states, and the keys of the OCCUPIED bins. */
  lemma {:induction false} DecodeText(toks: seq<Token>)
    ensures Decode(Text(toks)) == toks
  {
    if toks != [] {
      var w := Word(toks[0]);
      var rest := Text(toks[1..]);
      WordHasNoSpace(toks[0]);
      WordLengthOfWord(w, rest);
      var s := w + " " + rest;
      assert s[..|w|] == w;
      assert s[|w| + 1..] == rest;
      ParseWordRoundTrip(toks[0]);
      DecodeText(toks[1..]);
    }
  }
}
