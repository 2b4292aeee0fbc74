/**
 * The member table of albums, `tbl_album_members`, and the two triggers
 * that keep each album's `member_order` column a gap-free numbering:
 * before a member is inserted at order k, the members of the same album
 * at order k or above move up by one; after a member at order k is
 * deleted, the members of the same album above k move down by one.
 */
module AlbumMembers {

  /** A row of the member table; its primary key is `(albumId, fileId)`. */
  datatype Member = Member(albumId: int, fileId: string, order: int)

  predicate SameKey(m: Member, n: Member) {
    m.albumId == n.albumId && m.fileId == n.fileId
  }

  predicate UniqueKeys(rows: seq<Member>) {
    forall i, j | 0 <= i < j < |rows| :: !SameKey(rows[i], rows[j])
  }

  /** The position of the row with the given key, or -1 when there is none. */
  function IndexOf(rows: seq<Member>, key: Member): (i: int)
    ensures -1 <= i < |rows|
    ensures i >= 0 ==> SameKey(rows[i], key)
    ensures i == -1 <==> forall j | 0 <= j < |rows| :: !SameKey(rows[j], key)
    decreases |rows|
  {
    if rows == [] then -1
    else if SameKey(rows[|rows| - 1], key) then |rows| - 1
    else IndexOf(rows[..|rows| - 1], key)
  }

  /** The orders of the members of album `a`, in row order. */
  function Orders(rows: seq<Member>, a: int): seq<int>
    decreases |rows|
  {
    if rows == [] then []
    else (if rows[0].albumId == a then [rows[0].order] else []) + Orders(rows[1..], a)
  }

  /**
   * The orders of an album's n members are distinct and lie in 0..n-1, that
   * is, they number the members 0..n-1 without gaps.
   */
  predicate Contiguous(o: seq<int>) {
    && (forall i | 0 <= i < |o| :: 0 <= o[i] < |o|)
    && (forall i, j | 0 <= i < j < |o| :: o[i] != o[j])
  }

  /** The effect of the BEFORE INSERT trigger on one row. */
  function Up(m: Member, a: int, k: int): Member {
    if m.albumId == a && m.order >= k then m.(order := m.order + 1) else m
  }

  /** The effect of the AFTER DELETE trigger on one row. */
  function Down(m: Member, a: int, k: int): Member {
    if m.albumId == a && m.order > k then m.(order := m.order - 1) else m
  }

  function ShiftedUp(rows: seq<Member>, a: int, k: int): (r: seq<Member>)
    ensures |r| == |rows| && forall i | 0 <= i < |rows| :: r[i] == Up(rows[i], a, k)
  {
    seq(|rows|, i requires 0 <= i < |rows| => Up(rows[i], a, k))
  }

  function ShiftedDown(rows: seq<Member>, a: int, k: int): (r: seq<Member>)
    ensures |r| == |rows| && forall i | 0 <= i < |rows| :: r[i] == Down(rows[i], a, k)
  {
    seq(|rows|, i requires 0 <= i < |rows| => Down(rows[i], a, k))
  }

  /** The table after inserting `m`: the trigger's update, then the new row. */
  function Inserted(rows: seq<Member>, m: Member): seq<Member> {
    ShiftedUp(rows, m.albumId, m.order) + [m]
  }

  /** The table after deleting the row at position `i`: the removal, then the trigger's update. */
  function Deleted(rows: seq<Member>, i: int): seq<Member>
    requires 0 <= i < |rows|
  {
    ShiftedDown(rows[..i] + rows[i + 1..], rows[i].albumId, rows[i].order)
  }

  /** An album's orders after the insert trigger: those at k or above move up. */
  function Bump(o: seq<int>, k: int): (r: seq<int>)
    ensures |r| == |o| && forall i | 0 <= i < |o| :: r[i] == if o[i] >= k then o[i] + 1 else o[i]
  {
    seq(|o|, i requires 0 <= i < |o| => if o[i] >= k then o[i] + 1 else o[i])
  }

  /** An album's orders after the delete trigger: those above k move down. */
  function Drop(o: seq<int>, k: int): (r: seq<int>)
    ensures |r| == |o| && forall i | 0 <= i < |o| :: r[i] == if o[i] > k then o[i] - 1 else o[i]
  {
    seq(|o|, i requires 0 <= i < |o| => if o[i] > k then o[i] - 1 else o[i])
  }

  lemma {:induction false} OrdersConcat(x: seq<Member>, y: seq<Member>, a: int)
    ensures Orders(x + y, a) == Orders(x, a) + Orders(y, a)
    decreases |x|
  {
    if x != [] {
      assert (x + y)[1..] == x[1..] + y;
      OrdersConcat(x[1..], y, a);
    } else {
      assert x + y == y;
    }
  }

  lemma {:induction false} OrdersShiftedUp(rows: seq<Member>, a: int, k: int, b: int)
    ensures Orders(ShiftedUp(rows, a, k), b) == if b == a then Bump(Orders(rows, a), k) else Orders(rows, b)
    decreases |rows|
  {
    if rows != [] {
      assert ShiftedUp(rows, a, k)[1..] == ShiftedUp(rows[1..], a, k);
      OrdersShiftedUp(rows[1..], a, k, b);
    }
  }

  lemma {:induction false} OrdersShiftedDown(rows: seq<Member>, a: int, k: int, b: int)
    ensures Orders(ShiftedDown(rows, a, k), b) == if b == a then Drop(Orders(rows, a), k) else Orders(rows, b)
    decreases |rows|
  {
    if rows != [] {
      assert ShiftedDown(rows, a, k)[1..] == ShiftedDown(rows[1..], a, k);
      OrdersShiftedDown(rows[1..], a, k, b);
    }
  }

  /** Moving up the orders at k or above and adding k keeps a numbering 0..n-1 gap-free, now 0..n. */
  lemma BumpKeepsContiguous(o: seq<int>, k: int)
    requires Contiguous(o) && 0 <= k <= |o|
    ensures Contiguous(Bump(o, k) + [k])
  {
    var r := Bump(o, k) + [k];
    forall i, j | 0 <= i < j < |r| ensures r[i] != r[j] {
      if j < |o| {
        assert o[i] != o[j];
      }
    }
  }

  /** Removing order k and moving down the orders above it keeps a numbering 0..n-1 gap-free, now 0..n-2. */
  lemma DropKeepsContiguous(l: seq<int>, k: int, r: seq<int>)
    requires Contiguous(l + [k] + r)
    ensures Contiguous(Drop(l + r, k))
  {
    var o := l + [k] + r;
    var rest := l + r;
    var d := Drop(rest, k);
    // position of rest[i] within o
    assert forall i | 0 <= i < |rest| :: rest[i] == o[if i < |l| then i else i + 1];
    assert |o| == |rest| + 1;
    assert o[|l|] == k;
    forall i | 0 <= i < |rest| ensures rest[i] != k {
      var p := if i < |l| then i else i + 1;
      if p < |l| { assert o[p] != o[|l|]; } else { assert o[|l|] != o[p]; }
    }
    forall i, j | 0 <= i < j < |rest| ensures d[i] != d[j] {
      var p := if i < |l| then i else i + 1;
      var q := if j < |l| then j else j + 1;
      assert p < q && o[p] != o[q];
    }
  }

  /**
   * Inserting a member at an order within 0..n of an album numbered 0..n-1
   * leaves it numbered 0..n; every other album keeps its orders.
   */
  lemma InsertKeepsNumbering(rows: seq<Member>, m: Member, b: int)
    ensures Orders(Inserted(rows, m), b) ==
              if b == m.albumId then Bump(Orders(rows, b), m.order) + [m.order] else Orders(rows, b)
    ensures b == m.albumId && Contiguous(Orders(rows, b)) && 0 <= m.order <= |Orders(rows, b)| ==>
              Contiguous(Orders(Inserted(rows, m), b))
  {
    OrdersConcat(ShiftedUp(rows, m.albumId, m.order), [m], b);
    OrdersShiftedUp(rows, m.albumId, m.order, b);
    assert Orders([m], b) == if m.albumId == b then [m.order] else [];
    if b == m.albumId && Contiguous(Orders(rows, b)) && 0 <= m.order <= |Orders(rows, b)| {
      BumpKeepsContiguous(Orders(rows, b), m.order);
    }
  }

  /**
   * Deleting a member of an album numbered 0..n-1 leaves it numbered 0..n-2;
   * every other album keeps its orders.
   */
  lemma DeleteKeepsNumbering(rows: seq<Member>, i: int, b: int)
    requires 0 <= i < |rows|
    ensures b != rows[i].albumId ==> Orders(Deleted(rows, i), b) == Orders(rows, b)
    ensures b == rows[i].albumId && Contiguous(Orders(rows, b)) ==>
              Contiguous(Orders(Deleted(rows, i), b)) && |Orders(Deleted(rows, i), b)| == |Orders(rows, b)| - 1
  {
    var a := rows[i].albumId;
    var k := rows[i].order;
    assert rows == rows[..i] + [rows[i]] + rows[i + 1..];
    OrdersConcat(rows[..i] + [rows[i]], rows[i + 1..], b);
    OrdersConcat(rows[..i], [rows[i]], b);
    OrdersConcat(rows[..i], rows[i + 1..], b);
    OrdersShiftedDown(rows[..i] + rows[i + 1..], a, k, b);
    assert Orders([rows[i]], b) == if a == b then [k] else [];
    if b == a && Contiguous(Orders(rows, b)) {
      DropKeepsContiguous(Orders(rows[..i], b), k, Orders(rows[i + 1..], b));
    }
  }

  class MemberTable {
    var rows: seq<Member>

    ghost predicate Valid()
      reads this
    {
      UniqueKeys(rows)
    }

    constructor ()
      ensures Valid() && rows == []
    {
      rows := [];
    }

    /** The BEFORE INSERT trigger's UPDATE: members of album `a` at order `k` or above move up by one. */
    method ReorderBeforeInsert(a: int, k: int)
      requires Valid()
      modifies this
      ensures Valid()
      ensures rows == ShiftedUp(old(rows), a, k)
    {
      var i := 0;
      while i < |rows|
        invariant 0 <= i <= |rows| == |old(rows)|
        invariant forall j | 0 <= j < i :: rows[j] == Up(old(rows)[j], a, k)
        invariant forall j | i <= j < |rows| :: rows[j] == old(rows)[j]
      {
        if rows[i].albumId == a && rows[i].order >= k {
          rows := rows[i := rows[i].(order := rows[i].order + 1)];
        }
        i := i + 1;
      }
    }

    /** The AFTER DELETE trigger's UPDATE: members of album `a` above order `k` move down by one. */
    method ReorderAfterDelete(a: int, k: int)
      requires Valid()
      modifies this
      ensures Valid()
      ensures rows == ShiftedDown(old(rows), a, k)
    {
      var i := 0;
      while i < |rows|
        invariant 0 <= i <= |rows| == |old(rows)|
        invariant forall j | 0 <= j < i :: rows[j] == Down(old(rows)[j], a, k)
        invariant forall j | i <= j < |rows| :: rows[j] == old(rows)[j]
      {
        if rows[i].albumId == a && rows[i].order > k {
          rows := rows[i := rows[i].(order := rows[i].order - 1)];
        }
        i := i + 1;
      }
    }

    /**
     * Inserts a member. A key already present aborts the statement, which
     * also undoes the trigger's update, so the table is left as it was.
     */
    method Insert(m: Member) returns (ok: bool)
      requires Valid()
      modifies this
      ensures Valid()
      ensures ok <==> IndexOf(old(rows), m) == -1
      ensures rows == if ok then Inserted(old(rows), m) else old(rows)
    {
      if IndexOf(rows, m) != -1 {
        return false;
      }
      ReorderBeforeInsert(m.albumId, m.order);
      rows := rows + [m];
      ok := true;
    }

    /** Deletes the member with the given key, if present; returns the number of rows deleted. */
    method Delete(key: Member) returns (count: int)
      requires Valid()
      modifies this
      ensures Valid()
      ensures count == if IndexOf(old(rows), key) == -1 then 0 else 1
      ensures rows == if count == 0 then old(rows) else Deleted(old(rows), IndexOf(old(rows), key))
    {
      var i := IndexOf(rows, key);
      if i == -1 {
        return 0;
      }
      var gone := rows[i];
      ghost var before := rows;
      rows := rows[..i] + rows[i + 1..];
      assert UniqueKeys(rows) by {
        forall p, q | 0 <= p < q < |rows| ensures !SameKey(rows[p], rows[q]) {
          var p' := if p < i then p else p + 1;
          var q' := if q < i then q else q + 1;
          assert rows[p] == before[p'] && rows[q] == before[q'];
        }
      }
      ReorderAfterDelete(gone.albumId, gone.order);
      count := 1;
    }
  }
}
