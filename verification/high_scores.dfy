/** The persistent top-10 table of the richer variant: ten integer slots, best score first, with
    -1 marking an unused slot. Reading and writing the table from storage is not modelled; the
    table is a plain sequence. */
module HighScores {
  import opened Scan

  const Capacity: int := 10
  const Empty: int := -1

  /** The table a first run starts from: every slot unused. */
  const EmptyTable: seq<int> := [Empty, Empty, Empty, Empty, Empty, Empty, Empty, Empty, Empty, Empty]

  /** A well-formed table: ten slots, each unused or holding a non-negative score, the scores in
      non-increasing order and every unused slot after every score. */
  predicate Ranked(t: seq<int>) {
    && |t| == Capacity
    && (forall i :: 0 <= i < |t| ==> t[i] == Empty || t[i] >= 0)
    && (forall i, j :: 0 <= i < j < |t| && t[j] != Empty ==> t[i] != Empty && t[i] >= t[j])
  }

  /** The slot a new score goes into: the first one that is unused or holds a strictly smaller
      score, or -1 when the score does not make the table. */
  function Slot(t: seq<int>, score: int): (k: int)
    ensures -1 <= k < |t|
    ensures 0 <= k ==> t[k] == Empty || score > t[k]
    ensures forall j :: 0 <= j < |t| && (k < 0 || j < k) ==> t[j] != Empty && score <= t[j]
  {
    FirstWhere(t, e => e == Empty || score > e)
  }

  /** `insert_high_score`: put the score at its slot, shift the later entries down by one and drop
      the last entry; with no slot the table is unchanged. */
  function Insert(t: seq<int>, score: int): (r: seq<int>)
    requires |t| == Capacity
    ensures |r| == Capacity
    ensures Slot(t, score) < 0 ==> r == t
    ensures 0 <= Slot(t, score) ==> r[Slot(t, score)] == score
    ensures 0 <= Slot(t, score) ==> forall j :: 0 <= j < Slot(t, score) ==> r[j] == t[j]
  {
    var k := Slot(t, score);
    if k < 0 then t else t[..k] + [score] + t[k..Capacity - 1]
  }

  /** Where the score lands, what stays in front of it and what is shifted behind it. */
  lemma InsertShifts(t: seq<int>, score: int)
    requires |t| == Capacity
    ensures var k := Slot(t, score); var r := Insert(t, score);
      && (k < 0 ==> r == t)
      && (0 <= k ==>
            && r[k] == score
            && (forall j :: 0 <= j < k ==> r[j] == t[j])
            && (forall j :: k < j < Capacity ==> r[j] == t[j - 1]))
  {
  }

  /** A qualifying score pushes exactly the last entry off the table: the entries are the old
      ones with the last dropped and the score added. */
  lemma InsertDropsLast(t: seq<int>, score: int)
    requires |t| == Capacity && 0 <= Slot(t, score)
    ensures multiset(Insert(t, score)) == multiset(t) - multiset{t[Capacity - 1]} + multiset{score}
  {
    var k := Slot(t, score);
    assert t == t[..k] + t[k..Capacity - 1] + [t[Capacity - 1]];
  }

  /** Inserting a non-negative score keeps the table well formed. */
  lemma InsertKeepsRanked(t: seq<int>, score: int)
    requires Ranked(t)
    requires score >= 0
    ensures Ranked(Insert(t, score))
  {
    InsertShifts(t, score);
    var k := Slot(t, score);
    var r := Insert(t, score);
    if 0 <= k {
      forall i, j | 0 <= i < j < Capacity && r[j] != Empty
        ensures r[i] != Empty && r[i] >= r[j]
      {
        if j > k {
          assert r[j] == t[j - 1];
          assert t[k] != Empty && t[k] >= t[j - 1];
        }
      }
    }
  }

  /** Ties keep the older entry first: every score already in the table that equals the new one
      stays in front of it, and everything behind the new score is strictly smaller or unused. */
  lemma InsertAfterTies(t: seq<int>, score: int)
    requires Ranked(t)
    ensures var k := Slot(t, score); var r := Insert(t, score);
      0 <= k ==>
        && (forall j :: 0 <= j < k ==> r[j] >= score)
        && (forall j :: k < j < Capacity && r[j] != Empty ==> r[j] < score)
  {
    InsertShifts(t, score);
    var k := Slot(t, score);
    var r := Insert(t, score);
    if 0 <= k {
      forall j | k < j < Capacity && r[j] != Empty
        ensures r[j] < score
      {
        assert r[j] == t[j - 1];
        assert t[k] != Empty && t[k] >= t[j - 1];
      }
    }
  }

  /** A score no better than every entry of a full table leaves the table unchanged; a score
      better than the last entry, or any score while a slot is unused, is inserted. */
  lemma InsertChangesIffQualifies(t: seq<int>, score: int)
    requires Ranked(t)
    ensures Slot(t, score) < 0 <==> t[Capacity - 1] != Empty && score <= t[Capacity - 1]
    ensures t[Capacity - 1] != Empty && score <= t[Capacity - 1] ==> Insert(t, score) == t
  {
    var k := Slot(t, score);
    if 0 <= k < Capacity - 1 {
      assert t[Capacity - 1] != Empty ==> t[k] != Empty && t[k] >= t[Capacity - 1];
    }
  }

  /** Insertion at a slot known to be the first that qualifies. */
  lemma InsertAt(t: seq<int>, score: int, k: int)
    requires |t| == Capacity && 0 <= k < Capacity
    requires t[k] == Empty || score > t[k]
    requires forall j :: 0 <= j < k ==> t[j] != Empty && score <= t[j]
    ensures Insert(t, score) == t[..k] + [score] + t[k..Capacity - 1]
  {
    FirstWhereUnique(t, e => e == Empty || score > e, k);
  }

  /** Inserting 50, then 200, then 75 into an unused table ranks them 200, 75, 50. */
  lemma InsertExample()
    ensures Insert(Insert(Insert(EmptyTable, 50), 200), 75)
         == [200, 75, 50, Empty, Empty, Empty, Empty, Empty, Empty, Empty]
  {
    var t1 := [50, Empty, Empty, Empty, Empty, Empty, Empty, Empty, Empty, Empty];
    var t2 := [200, 50, Empty, Empty, Empty, Empty, Empty, Empty, Empty, Empty];
    var t3 := [200, 75, 50, Empty, Empty, Empty, Empty, Empty, Empty, Empty];
    InsertAt(EmptyTable, 50, 0);
    assert EmptyTable[..0] + [50] + EmptyTable[0..Capacity - 1] == t1;
    InsertAt(t1, 200, 0);
    assert t1[..0] + [200] + t1[0..Capacity - 1] == t2;
    InsertAt(t2, 75, 1);
    assert t2[..1] == [200];
    assert t2[1..Capacity - 1] == t3[2..];
  }

  /** The two loops of `insert_high_score` as written: a search for the insertion slot that stops
      at the first hit, then a shift from the last slot down to the insertion slot. */
  method InsertHighScore(table: seq<int>, score: int) returns (r: seq<int>)
    requires |table| == Capacity
    ensures r == Insert(table, score)
  {
    var insertAt := -1;
    var i := 0;
    while i < Capacity
      invariant 0 <= i <= Capacity
      invariant insertAt == -1
      invariant forall j :: 0 <= j < i ==> table[j] != Empty && score <= table[j]
    {
      if table[i] == Empty || score > table[i] {
        insertAt := i;
        break;
      }
      i := i + 1;
    }
    FirstWhereUnique(table, e => e == Empty || score > e, insertAt);
    if insertAt < 0 {
      return table;
    }
    r := table;
    var j := Capacity - 1;
    while j > insertAt
      invariant insertAt <= j <= Capacity - 1
      invariant |r| == Capacity
      invariant forall m :: 0 <= m <= j ==> r[m] == table[m]
      invariant forall m :: j < m < Capacity ==> r[m] == table[m - 1]
    {
      r := r[j := r[j - 1]];
      j := j - 1;
    }
    r := r[insertAt := score];
    assert r == table[..insertAt] + [score] + table[insertAt..Capacity - 1];
  }
}
