/** POST /bookings: a booking is written only if none exists for the same
    appointment date, email and treatment.  The bookings collection is the
    sequence `bookings` of a `BookingStore`, and calls are sequential. */
module BookingWriter {
  import opened Records

  /** The answer of POST /bookings: the `insertOne` result (`acknowledged:
      true`) carrying the new booking's identifier, here its position in the
      collection, or `acknowledged: false` with an explanation. */
  datatype InsertResult = Inserted(insertedId: nat) | AlreadyBooked(message: string) {
    predicate Acknowledged() { Inserted? }
  }

  /** The fields of the duplicate query `{ appointmentDate, email, treatment }`. */
  predicate SameKey(a: Booking, b: Booking) {
    a.appointmentDate == b.appointmentDate && a.email == b.email && a.treatment == b.treatment
  }

  /** `bookings.find(query).toArray()` for the candidate's key. */
  function Matching(bookings: seq<Booking>, candidate: Booking): (r: seq<Booking>)
    ensures forall b :: b in r <==> b in bookings && SameKey(b, candidate)
  {
    if |bookings| == 0 then []
    else
      var rest := Matching(bookings[1..], candidate);
      assert bookings == [bookings[0]] + bookings[1..];
      if SameKey(bookings[0], candidate) then [bookings[0]] + rest else rest
  }

  function DuplicateMessage(b: Booking): string {
    "Already have a booking for " + b.treatment + " in " + b.appointmentDate + "."
  }

  /** No two bookings share a date, email and treatment. */
  ghost predicate KeysUnique(bookings: seq<Booking>) {
    forall i, j :: 0 <= i < j < |bookings| ==> !SameKey(bookings[i], bookings[j])
  }

  /** One POST /bookings on the collection `bookings`: the new collection and the answer. */
  function Admit(bookings: seq<Booking>, candidate: Booking): (r: (seq<Booking>, InsertResult))
    ensures r.1.AlreadyBooked? <==> exists b :: b in bookings && SameKey(b, candidate)
    ensures r.1.AlreadyBooked? ==> r.0 == bookings && r.1.message == DuplicateMessage(candidate)
    ensures r.1.Inserted? ==> r.0 == bookings + [candidate] && r.1.insertedId == |bookings|
  {
    var found := Matching(bookings, candidate);
    if |found| > 0 then
      assert found[0] in found;
      (bookings, AlreadyBooked(DuplicateMessage(candidate)))
    else
      assert forall b :: b in bookings && SameKey(b, candidate) ==> b in found;
      (bookings + [candidate], Inserted(|bookings|))
  }

  /** Accepting a booking whose key is new keeps the keys unique. */
  lemma AdmitPreservesKeysUnique(bookings: seq<Booking>, candidate: Booking)
    requires KeysUnique(bookings)
    ensures KeysUnique(Admit(bookings, candidate).0)
  {
    var next := Admit(bookings, candidate).0;
    if next != bookings {
      forall i, j | 0 <= i < j < |next| ensures !SameKey(next[i], next[j]) {
        if j == |bookings| { assert next[i] in bookings; }
      }
    }
  }

  /** A run of POST /bookings requests handled one after another. */
  function AdmitAll(bookings: seq<Booking>, candidates: seq<Booking>): (r: seq<Booking>)
    ensures |bookings| <= |r| <= |bookings| + |candidates|
    decreases |candidates|
  {
    if |candidates| == 0 then bookings
    else AdmitAll(Admit(bookings, candidates[0]).0, candidates[1..])
  }

  /** Sequential requests never create two bookings with the same key. */
  lemma {:induction false} AdmitAllPreservesKeysUnique(bookings: seq<Booking>, candidates: seq<Booking>)
    requires KeysUnique(bookings)
    ensures KeysUnique(AdmitAll(bookings, candidates))
    decreases |candidates|
  {
    if |candidates| > 0 {
      AdmitPreservesKeysUnique(bookings, candidates[0]);
      AdmitAllPreservesKeysUnique(Admit(bookings, candidates[0]).0, candidates[1..]);
    }
  }

  /** Sequential requests keep every earlier booking, in place, and only
      append requested bookings. */
  lemma {:induction false} AdmitAllExtends(bookings: seq<Booking>, candidates: seq<Booking>)
    ensures |bookings| <= |AdmitAll(bookings, candidates)|
    ensures AdmitAll(bookings, candidates)[..|bookings|] == bookings
    ensures forall b :: b in AdmitAll(bookings, candidates) ==> b in bookings || b in candidates
    decreases |candidates|
  {
    if |candidates| > 0 {
      var next := Admit(bookings, candidates[0]).0;
      AdmitAllExtends(next, candidates[1..]);
      var all := AdmitAll(bookings, candidates);
      assert all[..|next|][..|bookings|] == all[..|bookings|];
      assert candidates == [candidates[0]] + candidates[1..];
    }
  }

  /** After sequential requests, every requested key is booked: either the
      request was written or an earlier booking already held its key. */
  lemma {:induction false} AdmitAllCoversRequests(bookings: seq<Booking>, candidates: seq<Booking>, c: Booking)
    requires c in candidates
    ensures exists b :: b in AdmitAll(bookings, candidates) && SameKey(b, c)
    decreases |candidates|
  {
    var next := Admit(bookings, candidates[0]).0;
    if c == candidates[0] {
      assert exists b :: b in next && SameKey(b, c) by {
        if Admit(bookings, c).1.Inserted? {
          assert next[|bookings|] == c && next[|bookings|] in next && SameKey(c, c);
        }
      }
      var b :| b in next && SameKey(b, c);
      AdmitAllExtends(next, candidates[1..]);
      var all := AdmitAll(next, candidates[1..]);
      var k :| 0 <= k < |next| && next[k] == b;
      assert all[..|next|][k] == b;
    } else {
      assert c in candidates[1..];
      AdmitAllCoversRequests(next, candidates[1..], c);
    }
  }

  /** The bookings collection; `Insert` is the POST /bookings handler. */
  class BookingStore {
    var bookings: seq<Booking>

    constructor ()
      ensures bookings == []
    {
      bookings := [];
    }

    method Insert(candidate: Booking) returns (result: InsertResult)
      modifies this
      ensures (bookings, result) == Admit(old(bookings), candidate)
      ensures result.AlreadyBooked? <==> exists b :: b in old(bookings) && SameKey(b, candidate)
      ensures result.AlreadyBooked? ==>
                bookings == old(bookings) && !result.Acknowledged() &&
                result.message == DuplicateMessage(candidate)
      ensures result.Inserted? ==> bookings == old(bookings) + [candidate]
      ensures KeysUnique(old(bookings)) ==> KeysUnique(bookings)
    {
      var bookingsArr := Matching(bookings, candidate);
      if |bookingsArr| > 0 {
        result := AlreadyBooked(DuplicateMessage(candidate));
      } else {
        result := Inserted(|bookings|);
        bookings := bookings + [candidate];
      }
      if KeysUnique(old(bookings)) {
        AdmitPreservesKeysUnique(old(bookings), candidate);
      }
    }
  }

  /** A client of the store: a repeated request for the same date, email and
      treatment is refused and writes nothing. */
  method DuplicateRequestRefused(store: BookingStore, first: Booking, second: Booking) returns (r1: InsertResult, r2: InsertResult)
    requires SameKey(first, second)
    modifies store
    ensures r2 == AlreadyBooked(DuplicateMessage(second))
    ensures store.bookings == old(store.bookings) || store.bookings == old(store.bookings) + [first]
  {
    r1 := store.Insert(first);
    assert exists b :: b in store.bookings && SameKey(b, second) by {
      if r1.Inserted? { assert store.bookings[|store.bookings| - 1] == first; }
      else { var b :| b in old(store.bookings) && SameKey(b, first); assert SameKey(b, second); }
    }
    r2 := store.Insert(second);
  }
}
