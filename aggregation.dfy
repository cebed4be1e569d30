/** GET /v2/appointment-options?date=: the same availability computed by one
    aggregation.  `$lookup` joins each option to the bookings whose
    `treatment` is its name and whose `appointmentDate` is the date, `$map`
    takes their slots, and `$setDifference` subtracts them from the option's
    slots.  `$setDifference` yields a set: no duplicates, and an order the
    database does not promise.  So the v2 response is specified by a
    predicate every admissible ordering satisfies, and `AggregateOptions` is
    one such ordering. */
module Aggregation {
  import opened Records
  import Availability

  /** The `bookedSlots` field after `$lookup` and `$map`. */
  function LookupBookedSlots(bookings: seq<Booking>, name: string, date: string): (r: seq<string>)
    ensures forall s :: s in r <==> Availability.Booked(bookings, name, date, s)
  {
    if |bookings| == 0 then []
    else
      var b := bookings[0];
      var rest := LookupBookedSlots(bookings[1..], name, date);
      assert bookings == [b] + bookings[1..];
      if b.treatment == name && b.appointmentDate == date then [b.slot] + rest else rest
  }

  predicate NoDuplicates(s: seq<string>) {
    forall i, j :: 0 <= i < j < |s| ==> s[i] != s[j]
  }

  /** What `$setDifference: [a, b]` may return: each value of `a` that is not
      in `b`, exactly once, in some order. */
  ghost predicate IsSetDifference(r: seq<string>, a: seq<string>, b: seq<string>) {
    NoDuplicates(r) && forall x :: x in r <==> x in a && x !in b
  }

  /** One admissible result of `$setDifference`: the last occurrence of each
      remaining value, in order. */
  function SetDifference(a: seq<string>, b: seq<string>): (r: seq<string>)
    ensures IsSetDifference(r, a, b)
  {
    if |a| == 0 then []
    else
      var rest := SetDifference(a[1..], b);
      assert a == [a[0]] + a[1..];
      if a[0] in b || a[0] in a[1..] then rest
      else
        assert NoDuplicates([a[0]] + rest) by {
          forall i, j | 0 <= i < j < |[a[0]] + rest| ensures ([a[0]] + rest)[i] != ([a[0]] + rest)[j] {
            if i == 0 { assert ([a[0]] + rest)[j] == rest[j - 1] && rest[j - 1] in rest; }
            else { assert ([a[0]] + rest)[i] == rest[i - 1] && ([a[0]] + rest)[j] == rest[j - 1]; }
          }
        }
        [a[0]] + rest
  }

  /** `r` is a response the aggregation may produce: the options in their
      order, `name` and `price` kept, `slots` a set difference. */
  ghost predicate IsAggregationResult(options: seq<AppointmentOption>, bookings: seq<Booking>,
                                      date: string, r: seq<AppointmentOption>) {
    |r| == |options| &&
    forall i :: 0 <= i < |r| ==>
      r[i].name == options[i].name && r[i].price == options[i].price &&
      IsSetDifference(r[i].slots, options[i].slots, LookupBookedSlots(bookings, options[i].name, date))
  }

  /** The aggregation pipeline with one admissible ordering of each set. */
  function AggregateOptions(options: seq<AppointmentOption>, bookings: seq<Booking>, date: string): (r: seq<AppointmentOption>)
    ensures IsAggregationResult(options, bookings, date, r)
  {
    seq(|options|, i requires 0 <= i < |options| =>
      options[i].(slots := SetDifference(options[i].slots, LookupBookedSlots(bookings, options[i].name, date))))
  }

  /** The join of v2 (treatment first, then date) picks the same slots, in
      the same order, as v1's date query followed by its treatment filter. */
  lemma {:induction false} LookupMatchesDateThenTreatment(bookings: seq<Booking>, name: string, date: string)
    ensures LookupBookedSlots(bookings, name, date) ==
            Availability.BookedSlots(Availability.BookingsOn(bookings, date), name)
  {
    if |bookings| > 0 {
      LookupMatchesDateThenTreatment(bookings[1..], name, date);
      var b := bookings[0];
      var byDate := Availability.BookingsOn(bookings, date);
      if b.appointmentDate == date {
        assert byDate == [b] + Availability.BookingsOn(bookings[1..], date);
        assert byDate[1..] == Availability.BookingsOn(bookings[1..], date);
      }
    }
  }

  /** Every response v2 may give agrees with v1 as sets of slots, option by
      option, with the same options, names and prices. */
  lemma AggregationAgreesWithV1AsSets(options: seq<AppointmentOption>, bookings: seq<Booking>,
                                      date: string, r: seq<AppointmentOption>, i: nat, s: string)
    requires IsAggregationResult(options, bookings, date, r)
    requires i < |options|
    ensures |r| == |Availability.AvailableOptions(options, bookings, date)|
    ensures r[i].name == Availability.AvailableOptions(options, bookings, date)[i].name
    ensures r[i].price == Availability.AvailableOptions(options, bookings, date)[i].price
    ensures s in r[i].slots <==> s in Availability.AvailableOptions(options, bookings, date)[i].slots
  {
    Availability.AvailableOptionsAt(options, bookings, date, i, s);
  }

  lemma {:induction false} RemainingSlotsKeepsNoDuplicates(slots: seq<string>, booked: seq<string>)
    requires NoDuplicates(slots)
    ensures NoDuplicates(Availability.RemainingSlots(slots, booked))
  {
    if |slots| > 0 {
      assert NoDuplicates(slots[1..]) by {
        forall i, j | 0 <= i < j < |slots[1..]| ensures slots[1..][i] != slots[1..][j] {
          assert slots[1..][i] == slots[i + 1] && slots[1..][j] == slots[j + 1];
        }
      }
      RemainingSlotsKeepsNoDuplicates(slots[1..], booked);
      var rest := Availability.RemainingSlots(slots[1..], booked);
      if slots[0] !in booked {
        assert slots[0] !in slots[1..] by {
          forall k | 0 <= k < |slots[1..]| ensures slots[1..][k] != slots[0] { assert slots[1..][k] == slots[k + 1]; }
        }
        var r := [slots[0]] + rest;
        forall i, j | 0 <= i < j < |r| ensures r[i] != r[j] {
          if i == 0 { assert r[j] == rest[j - 1] && rest[j - 1] in rest; }
          else { assert r[i] == rest[i - 1] && r[j] == rest[j - 1]; }
        }
      }
    }
  }

  /** When an option offers each slot once, v1's answer is itself one that
      the aggregation may give. */
  lemma V1IsAggregationResultWhenDistinct(options: seq<AppointmentOption>, bookings: seq<Booking>, date: string)
    requires forall i :: 0 <= i < |options| ==> NoDuplicates(options[i].slots)
    ensures IsAggregationResult(options, bookings, date, Availability.AvailableOptions(options, bookings, date))
  {
    var v1 := Availability.AvailableOptions(options, bookings, date);
    forall i | 0 <= i < |options|
      ensures IsSetDifference(v1[i].slots, options[i].slots, LookupBookedSlots(bookings, options[i].name, date))
    {
      var booked := Availability.BookedSlots(Availability.BookingsOn(bookings, date), options[i].name);
      LookupMatchesDateThenTreatment(bookings, options[i].name, date);
      RemainingSlotsKeepsNoDuplicates(options[i].slots, booked);
    }
  }

  lemma {:induction false} NoDuplicatesCount(s: seq<string>, x: string)
    requires NoDuplicates(s)
    ensures multiset(s)[x] == if x in s then 1 else 0
  {
    if |s| > 0 {
      assert NoDuplicates(s[1..]) by {
        forall i, j | 0 <= i < j < |s[1..]| ensures s[1..][i] != s[1..][j] {
          assert s[1..][i] == s[i + 1] && s[1..][j] == s[j + 1];
        }
      }
      NoDuplicatesCount(s[1..], x);
      assert s[0] !in s[1..] by {
        forall k | 0 <= k < |s[1..]| ensures s[1..][k] != s[0] { assert s[1..][k] == s[k + 1]; }
      }
      assert s == [s[0]] + s[1..];
    }
  }

  /** When an option offers each slot once, every v2 answer is a reordering
      of v1's slots. */
  lemma AggregationPermutesV1WhenDistinct(options: seq<AppointmentOption>, bookings: seq<Booking>,
                                          date: string, r: seq<AppointmentOption>, i: nat)
    requires IsAggregationResult(options, bookings, date, r)
    requires forall k :: 0 <= k < |options| ==> NoDuplicates(options[k].slots)
    requires i < |options|
    ensures multiset(r[i].slots) == multiset(Availability.AvailableOptions(options, bookings, date)[i].slots)
  {
    V1IsAggregationResultWhenDistinct(options, bookings, date);
    var v1 := Availability.AvailableOptions(options, bookings, date);
    forall x ensures multiset(r[i].slots)[x] == multiset(v1[i].slots)[x] {
      NoDuplicatesCount(r[i].slots, x);
      NoDuplicatesCount(v1[i].slots, x);
    }
  }

  /** With a repeated slot and no bookings, v1 keeps both copies while any
      v2 answer holds the slot once: the two agree only as sets. */
  lemma RepeatedSlotCollapses(r: seq<AppointmentOption>)
    requires IsAggregationResult([AppointmentOption("Braces", 99, ["9am", "9am"])], [], "2023-01-01", r)
    ensures r[0].slots == ["9am"]
    ensures Availability.AvailableOptions([AppointmentOption("Braces", 99, ["9am", "9am"])], [], "2023-01-01")[0].slots
            == ["9am", "9am"]
  {
    var s := r[0].slots;
    assert LookupBookedSlots([], "Braces", "2023-01-01") == [];
    assert "9am" in s;
    forall x ensures multiset(s)[x] == multiset{"9am"}[x] {
      NoDuplicatesCount(s, x);
    }
    assert multiset(s) == multiset{"9am"};
    assert |s| == |multiset(s)| == 1;
    assert s[0] in s;
    Availability.RemainingSlotsNothingBooked(["9am", "9am"]);
  }
}
