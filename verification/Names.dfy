// Generated instance names (core/sprite.c): "instance" and a running number, kept
// in one of three slabs by length; a shorter name's slab goes when it is idle.
module Names {
  import opened Options
  import opened Slab

  function Digit(d: nat): char
    requires d < 10
  {
    ['0', '1', '2', '3', '4', '5', '6', '7', '8', '9'][d]
  }

  function Decimal(n: nat): (r: string)
    ensures r != [] && (|r| == 1 <==> n < 10)
  {
    if n < 10 then [Digit(n)] else Decimal(n / 10) + [Digit(n % 10)]
  }

  const PREFIX: string := "instance"

  function Text(n: nat): (r: string)
    ensures |r| == 8 + |Decimal(n)|
  {
    PREFIX + Decimal(n)
  }

  lemma {:induction false} DecimalInjective(m: nat, n: nat)
    requires Decimal(m) == Decimal(n)
    ensures m == n
  {
    var d := Decimal(m);
    assert d[|d| - 1] == Digit(m % 10) == Digit(n % 10);
    if m >= 10 {
      assert d[..|d| - 1] == Decimal(m / 10) == Decimal(n / 10);
      DecimalInjective(m / 10, n / 10);
    }
  }

  // The number that a string of digits is.
  function Number(s: string): int {
    if s == [] then 0 else 10 * Number(s[..|s| - 1]) + (s[|s| - 1] as int - '0' as int)
  }

  predicate Digits(s: string) {
    forall i :: 0 <= i < |s| ==> '0' <= s[i] <= '9'
  }

  // A name is the prefix and the decimal form of its number, without leading zeros.
  lemma {:induction false} DecimalReads(n: nat)
    ensures Digits(Decimal(n)) && Number(Decimal(n)) == n && (n > 0 ==> Decimal(n)[0] != '0')
  {
    var d := Decimal(n);
    if n < 10 {
      assert d[..0] == [];
    } else {
      DecimalReads(n / 10);
      assert d[..|d| - 1] == Decimal(n / 10);
    }
  }

  lemma TextReads(n: nat)
    ensures Text(n)[..8] == "instance" && Digits(Text(n)[8..]) && Number(Text(n)[8..]) == n
    ensures n > 0 ==> Text(n)[8] != '0'
  {
    DecimalReads(n);
    assert Text(n)[..8] == PREFIX && Text(n)[8..] == Decimal(n);
  }

  lemma TextInjective(m: nat, n: nat)
    requires Text(m) == Text(n)
    ensures m == n
  {
    assert Text(m)[8..] == Decimal(m) && Text(n)[8..] == Decimal(n);
    DecimalInjective(m, n);
  }

  lemma {:induction false} LengthMonotone(m: nat, n: nat)
    requires m <= n
    ensures |Decimal(m)| <= |Decimal(n)|
  {
    if m >= 10 {
      LengthMonotone(m / 10, n / 10);
    }
  }

  function Ten(k: nat): (r: nat)
    ensures r > 0
  {
    if k == 0 then 1 else 10 * Ten(k - 1)
  }

  lemma {:induction false} LengthBound(n: nat, k: nat)
    requires k > 0 && n < Ten(k)
    ensures |Decimal(n)| <= k
  {
    if n >= 10 {
      LengthBound(n / 10, k - 1);
    }
  }

  // The slab a name of number n goes to.
  function Tier(n: nat): nat {
    |Text(n)| / 10
  }

  const ISIZE: seq<nat> := [10, 20, 30]
  const NITEM: seq<nat> := [9, 20, 40]
  const DIGITS: nat := 20     // of the largest 64-bit number

  predicate Counts(n: nat) {
    n < Ten(DIGITS)
  }

  // Every name goes to one of the three slabs and fits its slot with the
  // terminator; later names never go to an earlier slab.
  lemma NameFits(n: nat)
    requires Counts(n)
    ensures Tier(n) < 3 && |Text(n)| + 1 <= ISIZE[Tier(n)] && |Text(n)| + 1 < 30
  {
    LengthBound(n, DIGITS);
  }

  lemma TierMonotone(m: nat, n: nat)
    requires m <= n
    ensures Tier(m) <= Tier(n)
  {
    LengthMonotone(m, n);
  }

  type Id = nat
  datatype Cell = Cell(tier: nat, slot: Slot)

  // struct obname, as far as a generated name is concerned.
  datatype Name = Name(cell: Cell, len: nat)

  // All there is to the names: the fields of the player, and for each live name
  // its number, for each cell its user.
  datatype Pool = Pool(unnamed: nat, slabs: seq<Option<State>>, text: map<Cell, string>, names: map<Id, Name>,
                       number: map<Id, nat>, user: map<Cell, Id>)

  ghost predicate Ok(p: Pool) {
    && |p.slabs| == 3 && Counts(p.unnamed)
    && (forall t :: 0 <= t < 3 && p.slabs[t].Some? ==> SlabOk(t, p.slabs[t].value))
    && (forall id :: id in p.names ==> NameOk(p, id))
    && (forall i, j :: i in p.names && j in p.names && i != j ==> Differ(p, i, j))
    && (forall c :: Live(p, c) ==> InUse(p, c))
  }

  ghost predicate SlabOk(t: nat, st: State) {
    t < 3 && Inv(st) && st.shape == Shape(ISIZE[t], NITEM[t], 0)
  }

  ghost predicate Differ(p: Pool, i: Id, j: Id) {
    i in p.number && j in p.number && p.number[i] != p.number[j]
  }

  // c is a live slot of a slab in use.
  predicate Live(p: Pool, c: Cell)
    requires |p.slabs| == 3
  {
    c.tier < 3 && p.slabs[c.tier].Some? && c.slot in p.slabs[c.tier].value.live
  }

  // A live name is the text of its number, in a live slot of its own.
  ghost predicate NameOk(p: Pool, id: Id)
    requires id in p.names && |p.slabs| == 3
  {
    var c := p.names[id].cell;
    && id in p.number && 1 <= p.number[id] <= p.unnamed
    && c.tier == Tier(p.number[id]) && p.names[id].len == |Text(p.number[id])| && Live(p, c)
    && c in p.text && p.text[c] == Text(p.number[id])
    && c in p.user && p.user[c] == id
  }

  ghost predicate InUse(p: Pool, c: Cell) {
    c in p.user && p.user[c] in p.names && p.names[p.user[c]].cell == c
  }

  // No two live names are the same, and none lies in another's slot.
  lemma NamesDiffer(p: Pool, i: Id, j: Id)
    requires Ok(p) && i in p.names && j in p.names && i != j
    ensures p.names[i].cell in p.text && p.names[j].cell in p.text
    ensures p.text[p.names[i].cell] != p.text[p.names[j].cell] && p.names[i].cell != p.names[j].cell
  {
    assert NameOk(p, i) && NameOk(p, j) && Differ(p, i, j);
    if Text(p.number[i]) == Text(p.number[j]) {
      TextInjective(p.number[i], p.number[j]);
    }
  }

  // A slab is idle exactly when no live name is in it.
  lemma IdleIff(p: Pool, t: nat)
    requires Ok(p) && t < 3 && p.slabs[t].Some?
    ensures p.slabs[t].value.live == {} <==> forall id :: id in p.names ==> p.names[id].cell.tier != t
  {
    if s :| s in p.slabs[t].value.live {
      assert Live(p, Cell(t, s));
      assert InUse(p, Cell(t, s));
    }
    if id :| id in p.names && p.names[id].cell.tier == t {
      assert NameOk(p, id);
    }
  }

  // Slabs may come and go as long as the same slots are live.
  lemma SameLiveOk(p: Pool, q: Pool)
    requires Ok(p) && q == p.(slabs := q.slabs) && |q.slabs| == 3
    requires forall t :: 0 <= t < 3 && q.slabs[t].Some? ==> SlabOk(t, q.slabs[t].value)
    requires forall c :: Live(q, c) <==> Live(p, c)
    ensures Ok(q)
  {
    hide SlabOk, Counts, Text;
    assert forall id :: id in q.names ==> NameOk(p, id);
    assert forall i, j :: i in q.names && j in q.names && i != j ==> Differ(p, i, j);
    assert forall c :: Live(q, c) ==> InUse(p, c);
  }

  // The slab there is for a tier, or the one made for it.
  function SlabFor(slab: Option<State>, t: nat): State
    requires t < 3
  {
    if slab.Some? then slab.value else Create(ISIZE[t], NITEM[t], 0)
  }

  // slab_idle, on a slab there is
  predicate Idle(slab: Option<State>) {
    slab.Some? && slab.value.live == {}
  }

  lemma NewSlabOk(p: Pool, t: nat)
    requires Ok(p) && t < 3 && p.slabs[t].None?
    ensures Ok(p.(slabs := p.slabs[t := Some(Create(ISIZE[t], NITEM[t], 0))]))
  {
    hide NameOk, InUse, Differ, Counts, Inv;
    CreateInv(ISIZE[t], NITEM[t], 0);
    SameLiveOk(p, p.(slabs := p.slabs[t := Some(Create(ISIZE[t], NITEM[t], 0))]));
  }

  lemma RetireOk(p: Pool, t: nat)
    requires Ok(p) && t < 3 && p.slabs[t].Some? && p.slabs[t].value.live == {}
    ensures Ok(p.(slabs := p.slabs[t := None]))
  {
    hide NameOk, InUse, Differ, Counts, Inv;
    SameLiveOk(p, p.(slabs := p.slabs[t := None]));
  }

  // The name of the next number put into a slot of its slab.
  function Attached(p: Pool, id: Id, st: State, s: Slot): Pool {
    var n := p.unnamed + 1;
    var c := Cell(Tier(n), s);
    Pool(n, if c.tier < |p.slabs| then p.slabs[c.tier := Some(st)] else p.slabs, p.text[c := Text(n)],
         p.names[id := Name(c, |Text(n)|)], p.number[id := n], p.user[c := id])
  }

  lemma AttachedOk(p: Pool, id: Id, chunk: Chunk)
    requires Ok(p) && Counts(p.unnamed + 1) && id !in p.names
    requires Tier(p.unnamed + 1) < 3 && p.slabs[Tier(p.unnamed + 1)].Some?
    requires chunk !in p.slabs[Tier(p.unnamed + 1)].value.chunks
    ensures var (st, s) := Alloc(p.slabs[Tier(p.unnamed + 1)].value, chunk); Ok(Attached(p, id, st, s))
  {
    hide Inv, Tier, Counts, Text, Alloc, NameOk, Differ;
    var t := Tier(p.unnamed + 1);
    var old_ := p.slabs[t].value;
    AllocInv(old_, chunk);
    var (st, s) := Alloc(old_, chunk);
    AllocShape(old_, chunk);
    var q, c := Attached(p, id, st, s), Cell(t, s);
    forall d ensures Live(q, d) <==> Live(p, d) || d == c {
    }
    assert !Live(p, c);
    AttachedNames(p, q, id, c);
    AttachedDiffer(p, q, id);
    forall d | Live(q, d) ensures InUse(q, d) {
      assert d != c ==> InUse(p, d);
    }
  }

  lemma AttachedNames(p: Pool, q: Pool, id: Id, c: Cell)
    requires Ok(p) && |q.slabs| == 3 && !Live(p, c) && (forall d :: Live(q, d) <==> Live(p, d) || d == c)
    requires q == Pool(p.unnamed + 1, q.slabs, p.text[c := Text(p.unnamed + 1)],
                       p.names[id := Name(c, |Text(p.unnamed + 1)|)],
                       p.number[id := p.unnamed + 1], p.user[c := id])
    requires c.tier == Tier(p.unnamed + 1)
    ensures forall x :: x in q.names ==> NameOk(q, x)
  {
    hide SlabOk, Counts, Text, Tier, Live;
    forall x | x in q.names ensures NameOk(q, x) {
      assert x != id ==> NameOk(p, x);
    }
  }

  lemma AttachedDiffer(p: Pool, q: Pool, id: Id)
    requires Ok(p) && q.names.Keys <= p.names.Keys + {id} && q.number == p.number[id := p.unnamed + 1]
    ensures forall i, j :: i in q.names && j in q.names && i != j ==> Differ(q, i, j)
  {
    hide SlabOk, Counts, Text;
    forall i, j | i in q.names && j in q.names && i != j ensures Differ(q, i, j) {
      assert i != id ==> i in p.names && NameOk(p, i);
      assert j != id ==> j in p.names && NameOk(p, j);
      assert i != id && j != id ==> Differ(p, i, j);
    }
  }

  lemma AllocShape(st: State, chunk: Chunk)
    ensures Alloc(st, chunk).0.shape == st.shape
  {
  }

  function Detached(p: Pool, id: Id): Pool
    requires id in p.names
  {
    var c := p.names[id].cell;
    p.(slabs := if c.tier < |p.slabs| && p.slabs[c.tier].Some?
                then p.slabs[c.tier := Some(Dealloc(p.slabs[c.tier].value, c.slot))] else p.slabs,
       text := p.text - {c}, names := p.names - {id})
  }

  lemma DetachedOk(p: Pool, id: Id)
    requires Ok(p) && id in p.names
    ensures Ok(Detached(p, id)) && Live(p, p.names[id].cell)
    ensures p.names[id].len / 10 == p.names[id].cell.tier
    ensures forall x :: x in p.names && x != id ==> p.names[x].cell != p.names[id].cell
  {
    hide Inv, Counts, Text;
    assert NameOk(p, id);
    var q, c := Detached(p, id), p.names[id].cell;
    DeallocInv(p.slabs[c.tier].value, c.slot);
    forall d ensures Live(q, d) <==> Live(p, d) && d != c {
    }
    forall x | x in q.names ensures NameOk(q, x) {
      assert NameOk(p, x);
    }
    forall i, j | i in q.names && j in q.names && i != j ensures Differ(q, i, j) {
      assert Differ(p, i, j);
    }
    forall d | Live(q, d) ensures InUse(q, d) {
      assert InUse(p, d);
    }
    forall x | x in p.names && x != id ensures p.names[x].cell != c {
      assert NameOk(p, x);
    }
  }

  // ---- the player's fields ----------------------------------------------------

  class NamePool {
    var unnamed: nat                    // unnamed_instances
    var slabs: seq<Option<State>>       // name_slab
    var text: map<Cell, string>         // what the slots hold
    var names: map<Id, Name>            // objects with a generated name
    ghost var number: map<Id, nat>
    ghost var user: map<Cell, Id>

    ghost function View(): Pool
      reads this
    {
      Pool(unnamed, slabs, text, names, number, user)
    }

    constructor ()
      ensures View() == Pool(0, [None, None, None], map[], map[], map[], map[]) && Ok(View())
    {
      unnamed, slabs, text, names, number, user := 0, [None, None, None], map[], map[], map[], map[];
      LengthBound(0, DIGITS);
    }

    // player_attach_obname, on an object without a name
    method Attach(id: Id, chunk: Chunk)
      requires Ok(View()) && Counts(unnamed + 1) && id !in names
      requires forall t :: 0 <= t < 3 && slabs[t].Some? ==> chunk !in slabs[t].value.chunks
      modifies this
      ensures Ok(View()) && unnamed == old(unnamed) + 1
      ensures id in names && names == old(names)[id := names[id]]
      ensures names[id].cell in text && text == old(text)[names[id].cell := Text(unnamed)]
      ensures names[id] == Name(Cell(Tier(unnamed), names[id].cell.slot), |Text(unnamed)|)
      ensures |slabs| == 3 && Tier(unnamed) < 3
      ensures slabs[Tier(unnamed)] == Some(Alloc(SlabFor(old(slabs)[Tier(unnamed)], Tier(unnamed)), chunk).0)
      ensures forall t :: 0 <= t < 3 && t != Tier(unnamed) ==>
                slabs[t] == if t < Tier(unnamed) && Idle(old(slabs)[t]) then None else old(slabs)[t]
    {
      hide Ok, Text, Counts;
      var n := unnamed + 1;
      var i := |Text(n)| / 10;
      NameFits(n);
      ThreeSlabs(View());
      if slabs[i].None? {
        NewSlabOk(View(), i);
        slabs := slabs[i := Some(Create(ISIZE[i], NITEM[i], 0))];
      }
      Put(id, n, i, chunk);
      if i == 2 {
        Retire(1);
      }
      if i >= 1 {
        Retire(0);
      }
    }

    method Put(id: Id, n: nat, i: nat, chunk: Chunk)
      requires Ok(View()) && n == unnamed + 1 && Counts(n) && i == Tier(n) < 3 && |slabs| == 3 && slabs[i].Some?
      requires id !in names && chunk !in slabs[i].value.chunks
      modifies this
      ensures Ok(View()) && unnamed == n
      ensures id in names && names == old(names)[id := names[id]]
      ensures names[id].cell in text && text == old(text)[names[id].cell := Text(n)]
      ensures names[id] == Name(Cell(i, names[id].cell.slot), |Text(n)|)
      ensures slabs == old(slabs)[i := Some(Alloc(old(slabs)[i].value, chunk).0)]
    {
      hide Ok, Text, Counts;
      AttachedOk(View(), id, chunk);
      ghost var p := View();
      var (st, s) := Alloc(slabs[i].value, chunk);
      var c := Cell(i, s);
      slabs := slabs[i := Some(st)];
      text := text[c := Text(n)];
      names := names[id := Name(c, |Text(n)|)];
      unnamed, number, user := n, number[id := n], user[c := id];
      assert View() == Attached(p, id, st, s);
    }

    // The slab of a tier goes if no name is in it.
    method Retire(t: nat)
      requires Ok(View()) && t < 3
      modifies this`slabs
      ensures Ok(View()) && |old(slabs)| == 3
      ensures slabs == if Idle(old(slabs)[t]) then old(slabs)[t := None] else old(slabs)
    {
      hide Ok;
      ThreeSlabs(View());
      if Idle(slabs[t]) {
        RetireOk(View(), t);
        slabs := slabs[t := None];
      }
    }

    // player_detach_obname
    method Detach(id: Id)
      requires Ok(View())
      modifies this`slabs, this`names, this`text
      ensures Ok(View()) && names == old(names) - {id}
      ensures View() == if id in old(names) then Detached(old(View()), id) else old(View())
      ensures forall x :: x in names ==> names[x].cell in text && text[names[x].cell] == old(text)[names[x].cell]
    {
      hide Text, Counts, Inv;
      if id in names {
        DetachedOk(View(), id);
        ghost var p := View();
        var i := names[id].len / 10;
        var c := names[id].cell;
        slabs := slabs[i := Some(Dealloc(slabs[i].value, c.slot))];
        text := text - {c};
        names := names - {id};
        assert View() == Detached(p, id);
      } else {
        assert names == names - {id};
      }
      assert forall x :: x in names ==> NameOk(View(), x);
    }
  }

  lemma ThreeSlabs(p: Pool)
    requires Ok(p)
    ensures |p.slabs| == 3
  {
  }
}
