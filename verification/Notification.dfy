/** Finding the newly available peers by comparing a count with a listing in no particular order. */
module Notification {
  import opened Serializer
  import opened Registry

  /** The part of the listing that a notification reports, given the count known from the last one. */
  function Reported(known: nat, order: seq<bytes>): (r: seq<bytes>)
    ensures forall id :: id in r ==> id in order
  {
    if |order| <= known then [] else order[known..]
  }

  /** A notification reports exactly the newly available peers... */
  ghost predicate ReportsTheNew(before: set<bytes>, after: set<bytes>, order: seq<bytes>) {
    Enumerates(Reported(|before|, order), after - before)
  }

  /** ...if and only if the peers at the positions already counted are old ones. */
  ghost predicate CountedAreOld(before: set<bytes>, order: seq<bytes>) {
    forall i :: 0 <= i < |order| && i < |before| ==> order[i] in before
  }

  lemma ReportsTheNewIff(before: set<bytes>, after: set<bytes>, order: seq<bytes>)
    requires Enumerates(order, after)
    ensures ReportsTheNew(before, after, order) <==> CountedAreOld(before, order)
  {
    if CountedAreOld(before, order) {
      if |before| < |order| {
        PrefixIsOld(before, order);
        SplitOrder(|before|, order);
      } else {
        AllAreOld(before, after, order);
      }
    } else {
      var i :| 0 <= i < |order| && i < |before| && order[i] !in before;
      CountedIsNotReported(|before|, order, i);
      assert order[i] in after;
    }
  }

  lemma SplitOrder(known: nat, order: seq<bytes>)
    requires known < |order| && forall i, j :: 0 <= i < j < |order| ==> order[i] != order[j]
    ensures forall id :: id in Reported(known, order) <==> id in order && id !in order[..known]
  {
    assert order == order[..known] + order[known..];
  }

  lemma AllAreOld(before: set<bytes>, after: set<bytes>, order: seq<bytes>)
    requires Enumerates(order, after) && |order| <= |before| && CountedAreOld(before, order)
    ensures after <= before
  {
    forall id | id in after ensures id in before {
      var i :| 0 <= i < |order| && order[i] == id;
    }
  }

  lemma CountedIsNotReported(known: nat, order: seq<bytes>, i: nat)
    requires i < known && i < |order| && forall i, j :: 0 <= i < j < |order| ==> order[i] != order[j]
    ensures order[i] !in Reported(known, order)
  {
  }

  /** Distinct positions filled from a set of that many elements use up the set. */
  lemma PrefixIsOld(before: set<bytes>, order: seq<bytes>)
    requires |before| < |order| && forall i, j :: 0 <= i < j < |order| ==> order[i] != order[j]
    requires forall i :: 0 <= i < |before| ==> order[i] in before
    ensures forall id :: id in before <==> id in order[..|before|]
  {
    var prefix := order[..|before|];
    var used := set id | id in prefix;
    assert Enumerates(prefix, used);
    EnumerationSize(prefix, used);
    SubsetOfEqualSize(used, before);
  }

  lemma {:induction false} SubsetOfEqualSize(a: set<bytes>, b: set<bytes>)
    requires a <= b && |a| == |b|
    ensures a == b
  {
    if a != {} {
      var x :| x in a;
      SubsetOfEqualSize(a - {x}, b - {x});
    }
  }

  lemma {:induction false} EverySetCanBeListed(ids: set<bytes>) returns (order: seq<bytes>)
    ensures Enumerates(order, ids)
  {
    order := [];
    if ids != {} {
      var id :| id in ids;
      var rest := EverySetCanBeListed(ids - {id});
      order := [id] + rest;
    }
  }

  /** Whatever order the map lists its peers in, exactly the new ones are reported: this is certain if and only if
      no peer was known before, or no peer is new. */
  lemma EveryOrderReportsTheNewIff(before: set<bytes>, after: set<bytes>)
    ensures (forall order :: Enumerates(order, after) ==> ReportsTheNew(before, after, order))
       <==> before == {} || after <= before
  {
    forall order | Enumerates(order, after)
      ensures ReportsTheNew(before, after, order) <==> CountedAreOld(before, order)
    {
      ReportsTheNewIff(before, after, order);
    }
    if before != {} && !(after <= before) {
      var id :| id in after && id !in before;
      var rest := EverySetCanBeListed(after - {id});
      var order := [id] + rest;
      assert Enumerates(order, after) && order[0] !in before;
    } else {
      forall order | Enumerates(order, after) ensures CountedAreOld(before, order) {
        assert forall i :: 0 <= i < |order| ==> order[i] in order;
      }
    }
  }
}
