/** The public availability query: the days a candidate may still book,
    earliest first. "Today" is the Colombian civil date, an input here. */
module Availability {
  import opened Store

  /** A day the query lists: not in the past, with a free slot, 'Activo'. */
  predicate Listed(day: Day, today: Date) {
    day.fecha >= today && day.available > 0 && day.estado == Activo
  }

  predicate SortedByDate(r: seq<(Id, Day)>) {
    forall i, j :: 0 <= i < j < |r| ==> r[i].1.fecha <= r[j].1.fecha
  }

  predicate DistinctIds(r: seq<(Id, Day)>) {
    forall i, j :: 0 <= i < j < |r| ==> r[i].0 != r[j].0
  }

  /** The number of leading entries dated before `f`: where an entry dated
      `f` goes in a date-ordered list. */
  function Position(r: seq<(Id, Day)>, f: Date): (k: nat)
    requires SortedByDate(r)
    ensures k <= |r|
    ensures forall i :: 0 <= i < k ==> r[i].1.fecha < f
    ensures forall i :: k <= i < |r| ==> f <= r[i].1.fecha
  {
    if |r| == 0 || f <= r[0].1.fecha then 0 else 1 + Position(r[1..], f)
  }

  /** Places `e` into a date-ordered list after every entry with an earlier
      date, keeping the order. */
  function Insert(r: seq<(Id, Day)>, e: (Id, Day)): (r': seq<(Id, Day)>)
    requires SortedByDate(r)
    ensures SortedByDate(r')
    ensures |r'| == |r| + 1
    ensures forall x :: x in r' <==> x in r || x == e
    ensures DistinctIds(r) && (forall i :: 0 <= i < |r| ==> r[i].0 != e.0) ==> DistinctIds(r')
  {
    var k := Position(r, e.1.fecha);
    SpliceFacts(r, k, e);
    r[..k] + [e] + r[k..]
  }

  /** Inserting adds exactly the new entry, with multiplicity: every entry
      of the list keeps its number of occurrences. */
  lemma InsertAddsOne(r: seq<(Id, Day)>, e: (Id, Day))
    requires SortedByDate(r)
    ensures multiset(Insert(r, e)) == multiset(r) + multiset{e}
  {
    var k := Position(r, e.1.fecha);
    assert Insert(r, e) == r[..k] + [e] + r[k..];
    assert r == r[..k] + r[k..];
  }

  lemma SpliceShape(r: seq<(Id, Day)>, k: nat, e: (Id, Day), i: int)
    requires k <= |r| && 0 <= i <= |r|
    ensures (r[..k] + [e] + r[k..])[i] == (if i < k then r[i] else if i == k then e else r[i - 1])
  {
  }

  lemma SpliceFacts(r: seq<(Id, Day)>, k: nat, e: (Id, Day))
    requires SortedByDate(r) && k <= |r|
    requires forall i :: 0 <= i < k ==> r[i].1.fecha < e.1.fecha
    requires forall i :: k <= i < |r| ==> e.1.fecha <= r[i].1.fecha
    ensures SortedByDate(r[..k] + [e] + r[k..])
    ensures forall x :: x in r[..k] + [e] + r[k..] <==> x in r || x == e
    ensures DistinctIds(r) && (forall i :: 0 <= i < |r| ==> r[i].0 != e.0) ==> DistinctIds(r[..k] + [e] + r[k..])
  {
    var r' := r[..k] + [e] + r[k..];
    forall i, j | 0 <= i < j < |r'|
      ensures r'[i].1.fecha <= r'[j].1.fecha
      ensures DistinctIds(r) && (forall n :: 0 <= n < |r| ==> r[n].0 != e.0) ==> r'[i].0 != r'[j].0
    {
      SpliceShape(r, k, e, i);
      SpliceShape(r, k, e, j);
    }
    forall x | x in r'
      ensures x in r || x == e
    {
      var i :| 0 <= i < |r'| && r'[i] == x;
      SpliceShape(r, k, e, i);
    }
    forall x | x in r
      ensures x in r'
    {
      var i :| 0 <= i < |r| && r[i] == x;
      if i < k {
        SpliceShape(r, k, e, i);
      } else {
        SpliceShape(r, k, e, i + 1);
      }
    }
    SpliceShape(r, k, e, k);
  }

  /** `getAvailableInterviewDays`: exactly the listed days, each once, with
      the record the store holds, in ascending date order. */
  method AvailableDays(s: State, today: Date) returns (r: seq<(Id, Day)>)
    ensures SortedByDate(r)
    ensures DistinctIds(r)
    ensures forall i :: 0 <= i < |r| ==>
              r[i].0 in s.days && s.days[r[i].0] == r[i].1 && Listed(r[i].1, today)
    ensures forall d :: d in s.days && Listed(s.days[d], today) ==>
              exists i :: 0 <= i < |r| && r[i].0 == d
  {
    r := [];
    var todo := s.days.Keys;
    while todo != {}
      invariant todo <= s.days.Keys
      invariant SortedByDate(r) && DistinctIds(r)
      invariant forall i :: 0 <= i < |r| ==>
                  r[i].0 in s.days && r[i].0 !in todo && s.days[r[i].0] == r[i].1 && Listed(r[i].1, today)
      invariant forall d :: d in s.days && d !in todo && Listed(s.days[d], today) ==>
                  exists i :: 0 <= i < |r| && r[i].0 == d
      decreases todo
    {
      NonEmptyHasMember(todo);
      var d :| d in todo;
      todo := todo - {d};
      if Listed(s.days[d], today) {
        var e := (d, s.days[d]);
        var r' := Insert(r, e);
        forall i | 0 <= i < |r'|
          ensures r'[i].0 in s.days && r'[i].0 !in todo && s.days[r'[i].0] == r'[i].1 && Listed(r'[i].1, today)
        {
          assert r'[i] in r';
          if r'[i] != e {
            var k :| 0 <= k < |r| && r[k] == r'[i];
          }
        }
        forall x | x in s.days && x !in todo && Listed(s.days[x], today)
          ensures exists i :: 0 <= i < |r'| && r'[i].0 == x
        {
          if x == d {
            assert e in r';
            var i :| 0 <= i < |r'| && r'[i] == e;
          } else {
            var k :| 0 <= k < |r| && r[k].0 == x;
            assert r[k] in r';
            var i :| 0 <= i < |r'| && r'[i] == r[k];
          }
        }
        r := r';
      }
    }
  }
}
