/** The 2x2 contingency table `[a, b, c, d]` of measurefairness.py and the
    counting that fills it.

    |              | minority (x=0) | majority (x=1) |
    | guess 0      |       a        |       b        |
    | guess 1      |       c        |       d        |
*/
module Tables {
  import opened Values

  datatype Table = Table(a: nat, b: nat, c: nat, d: nat)

  /** The four cells, in list order: `a` is index 0, `d` is index 3. */
  datatype Cell = A | B | C | D

  const Empty: Table := Table(0, 0, 0, 0)

  /** The count held in cell `k`. */
  function Count(t: Table, k: Cell): nat {
    match k
    case A => t.a
    case B => t.b
    case C => t.c
    case D => t.d
  }

  function Total(t: Table): nat {
    t.a + t.b + t.c + t.d
  }

  /** Cell-wise sum of two tables (the table of two record runs put together). */
  function Plus(t: Table, u: Table): Table {
    Table(t.a + u.a, t.b + u.b, t.c + u.c, t.d + u.d)
  }

  /** One record added to a table: the cell it is placed in goes up by one and
      every other cell keeps its count; a record placed nowhere changes nothing. */
  function Bump(t: Table, p: Option<Cell>): (r: Table)
    ensures Total(r) == Total(t) + (if p.Some? then 1 else 0)
  {
    match p
    case None => t
    case Some(A) => t.(a := t.a + 1)
    case Some(B) => t.(b := t.b + 1)
    case Some(C) => t.(c := t.c + 1)
    case Some(D) => t.(d := t.d + 1)
  }

  /** Bumping changes the cell the record is placed in, by one, and no other cell. */
  lemma BumpCount(t: Table, p: Option<Cell>, k: Cell)
    ensures Count(Bump(t, p), k) == Count(t, k) + (if p == Some(k) then 1 else 0)
  {
  }

  /** The table obtained by adding the records, in order, to an empty table. */
  function Tally(ps: seq<Option<Cell>>): Table
    decreases |ps|
  {
    if ps == [] then Empty else Bump(Tally(ps[..|ps| - 1]), ps[|ps| - 1])
  }

  /** Each cell of the tally counts exactly the records placed in it, and the
      records placed nowhere are the ones missing from the total. */
  lemma {:induction false} TallyCounts(ps: seq<Option<Cell>>)
    ensures forall k :: Count(Tally(ps), k) == multiset(ps)[Some(k)]
    ensures Total(Tally(ps)) + multiset(ps)[None] == |ps|
    decreases |ps|
  {
    if ps != [] {
      var init, last := ps[..|ps| - 1], ps[|ps| - 1];
      assert ps == init + [last];
      TallyCounts(init);
      forall k ensures Count(Tally(ps), k) == multiset(ps)[Some(k)] {
        BumpCount(Tally(init), last, k);
      }
    }
  }

  /** The total never exceeds the number of records. */
  lemma TallyBounded(ps: seq<Option<Cell>>)
    ensures Total(Tally(ps)) <= |ps|
  {
    TallyCounts(ps);
  }

  /** The order of the records does not matter: any rearrangement gives the same table. */
  lemma TallyOrderIndependent(ps: seq<Option<Cell>>, qs: seq<Option<Cell>>)
    requires multiset(ps) == multiset(qs)
    ensures Tally(ps) == Tally(qs)
  {
    TallyCounts(ps);
    TallyCounts(qs);
    assert Count(Tally(ps), A) == Count(Tally(qs), A);
    assert Count(Tally(ps), B) == Count(Tally(qs), B);
    assert Count(Tally(ps), C) == Count(Tally(qs), C);
    assert Count(Tally(ps), D) == Count(Tally(qs), D);
  }

  lemma BumpPlus(t: Table, u: Table, p: Option<Cell>)
    ensures Bump(Plus(t, u), p) == Plus(t, Bump(u, p))
  {
    match p
    case None =>
    case Some(k) =>
  }

  /** Splitting the records in two and summing the two partial tables gives
      the table of the whole run. */
  lemma {:induction false} TallySplit(xs: seq<Option<Cell>>, ys: seq<Option<Cell>>)
    ensures Tally(xs + ys) == Plus(Tally(xs), Tally(ys))
    decreases |ys|
  {
    if ys == [] {
      assert xs + ys == xs;
    } else {
      var init, last := ys[..|ys| - 1], ys[|ys| - 1];
      var whole := xs + ys;
      assert whole[..|whole| - 1] == xs + init && whole[|whole| - 1] == last;
      TallySplit(xs, init);
      BumpPlus(Tally(xs), Tally(init), last);
    }
  }
}
