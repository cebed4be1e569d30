/** GET /appointment-options?date=: the remaining slots of every appointment
    option on one date, computed in memory.  The handler fetches all options
    and the bookings of the date, then for each option keeps the slots that no
    booking of that treatment took. */
module Availability {
  import opened Records

  /** `bookings.find({ appointmentDate: date })`, in collection order. */
  function BookingsOn(bookings: seq<Booking>, date: string): (r: seq<Booking>)
    ensures forall b :: b in r <==> b in bookings && b.appointmentDate == date
  {
    if |bookings| == 0 then []
    else
      var rest := BookingsOn(bookings[1..], date);
      assert bookings == [bookings[0]] + bookings[1..];
      if bookings[0].appointmentDate == date then [bookings[0]] + rest else rest
  }

  /** `bookingsByDate.filter(b => b.treatment === name).map(b => b.slot)`. */
  function BookedSlots(bookingsByDate: seq<Booking>, name: string): (r: seq<string>)
    ensures forall s :: s in r <==> exists b :: b in bookingsByDate && b.treatment == name && b.slot == s
  {
    if |bookingsByDate| == 0 then []
    else
      var rest := BookedSlots(bookingsByDate[1..], name);
      assert bookingsByDate == [bookingsByDate[0]] + bookingsByDate[1..];
      if bookingsByDate[0].treatment == name then [bookingsByDate[0].slot] + rest else rest
  }

  /** `slots.filter(slot => !bookedSlots.includes(slot))`. */
  function RemainingSlots(slots: seq<string>, booked: seq<string>): (r: seq<string>)
    ensures forall s :: s in r <==> s in slots && s !in booked
    ensures |r| <= |slots|
  {
    if |slots| == 0 then []
    else
      assert slots == [slots[0]] + slots[1..];
      (if slots[0] in booked then [] else [slots[0]]) + RemainingSlots(slots[1..], booked)
  }

  /** Some booking in the whole collection took slot `s` of treatment `name` on `date`. */
  ghost predicate Booked(bookings: seq<Booking>, name: string, date: string, s: string) {
    exists b :: b in bookings && b.treatment == name && b.appointmentDate == date && b.slot == s
  }

  /** One pass of the `forEach` body: the option with its `slots` replaced by
      the remaining ones. */
  function WithRemainingSlots(option: AppointmentOption, bookingsByDate: seq<Booking>): (r: AppointmentOption)
    ensures r.name == option.name && r.price == option.price
    ensures forall s :: s in r.slots <==>
              s in option.slots && !exists b :: b in bookingsByDate && b.treatment == option.name && b.slot == s
  {
    option.(slots := RemainingSlots(option.slots, BookedSlots(bookingsByDate, option.name)))
  }

  /** The response of GET /appointment-options for `date`. */
  function AvailableOptions(options: seq<AppointmentOption>, bookings: seq<Booking>, date: string): (r: seq<AppointmentOption>)
    ensures |r| == |options|
    ensures forall i :: 0 <= i < |r| ==> r[i].name == options[i].name && r[i].price == options[i].price
    ensures forall i, s :: 0 <= i < |r| ==>
              (s in r[i].slots <==> s in options[i].slots && !Booked(bookings, options[i].name, date, s))
  {
    var bookingsByDate := BookingsOn(bookings, date);
    seq(|options|, i requires 0 <= i < |options| => WithRemainingSlots(options[i], bookingsByDate))
  }

  /** The handler itself: `toArray()` gives a fresh array of the options, and
      the `forEach` loop overwrites each element's slots in place. */
  method GetAppointmentOptions(options: seq<AppointmentOption>, bookings: seq<Booking>, date: string)
    returns (result: seq<AppointmentOption>)
    ensures result == AvailableOptions(options, bookings, date)
    ensures |result| == |options|
    ensures forall i :: 0 <= i < |result| ==>
              result[i].name == options[i].name && result[i].price == options[i].price
    ensures forall i, s :: 0 <= i < |result| ==>
              (s in result[i].slots <==> s in options[i].slots && !Booked(bookings, options[i].name, date, s))
  {
    var bookingsByDate := BookingsOn(bookings, date);
    var arr := new AppointmentOption[|options|](i requires 0 <= i < |options| => options[i]);
    var i := 0;
    while i < arr.Length
      invariant 0 <= i <= arr.Length
      invariant forall k :: 0 <= k < i ==> arr[k] == WithRemainingSlots(options[k], bookingsByDate)
      invariant forall k :: i <= k < arr.Length ==> arr[k] == options[k]
    {
      var bookedSlots := BookedSlots(bookingsByDate, arr[i].name);
      var remainingSlots := RemainingSlots(arr[i].slots, bookedSlots);
      arr[i] := arr[i].(slots := remainingSlots);
      i := i + 1;
    }
    result := arr[..];
    forall k, s | 0 <= k < |result|
      ensures s in result[k].slots <==> s in options[k].slots && !Booked(bookings, options[k].name, date, s)
    {
      BookedIff(bookings, options[k].name, date, s);
    }
  }

  /** A slot is among the booked slots the handler computes for an option
      exactly when some booking of that treatment on that date took it. */
  lemma BookedIff(bookings: seq<Booking>, name: string, date: string, s: string)
    ensures s in BookedSlots(BookingsOn(bookings, date), name) <==> Booked(bookings, name, date, s)
  {
  }

  /** Soundness and completeness of the remaining slots, by slot membership. */
  lemma {:induction false} AvailableOptionsAt(options: seq<AppointmentOption>, bookings: seq<Booking>, date: string, i: nat, s: string)
    requires i < |options|
    ensures |AvailableOptions(options, bookings, date)| == |options|
    ensures AvailableOptions(options, bookings, date)[i].name == options[i].name
    ensures AvailableOptions(options, bookings, date)[i].price == options[i].price
    ensures s in AvailableOptions(options, bookings, date)[i].slots <==>
              s in options[i].slots && !Booked(bookings, options[i].name, date, s)
  {
    BookedIff(bookings, options[i].name, date, s);
  }

  /** Order: the computation distributes over concatenation of the slots, so
      the kept slots stay in their original relative order. */
  lemma {:induction false} RemainingSlotsConcat(a: seq<string>, b: seq<string>, booked: seq<string>)
    ensures RemainingSlots(a + b, booked) == RemainingSlots(a, booked) + RemainingSlots(b, booked)
  {
    if |a| > 0 {
      assert (a + b)[1..] == a[1..] + b;
      RemainingSlotsConcat(a[1..], b, booked);
    } else {
      assert a + b == b;
    }
  }

  /** Duplicates: every slot that is not booked is kept as many times as it
      is offered; a booked slot disappears entirely. */
  lemma {:induction false} RemainingSlotsCount(slots: seq<string>, booked: seq<string>, s: string)
    ensures multiset(RemainingSlots(slots, booked))[s] == if s in booked then 0 else multiset(slots)[s]
  {
    if |slots| > 0 {
      RemainingSlotsCount(slots[1..], booked, s);
      assert slots == [slots[0]] + slots[1..];
    }
  }

  /** `r` is `s` with some elements removed, the rest in order. */
  predicate Subsequence(r: seq<string>, s: seq<string>)
    decreases |s|
  {
    if |r| == 0 then true
    else if |s| == 0 then false
    else (r[0] == s[0] && Subsequence(r[1..], s[1..])) || Subsequence(r, s[1..])
  }

  lemma {:induction false} RemainingSlotsSubsequence(slots: seq<string>, booked: seq<string>)
    ensures Subsequence(RemainingSlots(slots, booked), slots)
  {
    if |slots| > 0 {
      RemainingSlotsSubsequence(slots[1..], booked);
      var r := RemainingSlots(slots, booked);
      if slots[0] !in booked {
        assert r[0] == slots[0] && r[1..] == RemainingSlots(slots[1..], booked);
      } else {
        assert r == RemainingSlots(slots[1..], booked);
      }
    }
  }

  /** A booked value that the option does not offer is ignored. */
  lemma {:induction false} UnofferedBookingIgnored(slots: seq<string>, booked: seq<string>, x: string)
    requires x !in slots
    ensures RemainingSlots(slots, booked + [x]) == RemainingSlots(slots, booked)
  {
    if |slots| > 0 {
      UnofferedBookingIgnored(slots[1..], booked, x);
    }
  }

  /** Only which values are booked matters, not their order or multiplicity. */
  lemma {:induction false} RemainingSlotsByMembership(slots: seq<string>, booked1: seq<string>, booked2: seq<string>)
    requires forall x :: x in booked1 <==> x in booked2
    ensures RemainingSlots(slots, booked1) == RemainingSlots(slots, booked2)
  {
    if |slots| > 0 {
      RemainingSlotsByMembership(slots[1..], booked1, booked2);
    }
  }

  /** Bookings of other treatments, or of other dates, have no effect on an option. */
  lemma OtherBookingsIrrelevant(options: seq<AppointmentOption>, bookings: seq<Booking>, others: seq<Booking>, date: string, i: nat)
    requires i < |options|
    requires forall b :: b in others ==> b.treatment != options[i].name || b.appointmentDate != date
    ensures |AvailableOptions(options, bookings + others, date)| == |AvailableOptions(options, bookings, date)| == |options|
    ensures AvailableOptions(options, bookings + others, date)[i] == AvailableOptions(options, bookings, date)[i]
  {
    var name := options[i].name;
    var booked1 := BookedSlots(BookingsOn(bookings + others, date), name);
    var booked2 := BookedSlots(BookingsOn(bookings, date), name);
    forall x ensures x in booked1 <==> x in booked2 {
      BookedIff(bookings + others, name, date, x);
      BookedIff(bookings, name, date, x);
    }
    RemainingSlotsByMembership(options[i].slots, booked1, booked2);
  }

  /** A date that no booking carries (for instance, one written in another
      format) leaves every option with all of its slots. */
  lemma UnmatchedDateKeepsAllSlots(options: seq<AppointmentOption>, bookings: seq<Booking>, date: string)
    requires forall b :: b in bookings ==> b.appointmentDate != date
    ensures AvailableOptions(options, bookings, date) == options
  {
    var bookingsByDate := BookingsOn(bookings, date);
    forall i | 0 <= i < |options| ensures WithRemainingSlots(options[i], bookingsByDate) == options[i] {
      RemainingSlotsByMembership(options[i].slots, BookedSlots(bookingsByDate, options[i].name), []);
      RemainingSlotsNothingBooked(options[i].slots);
    }
  }

  lemma {:induction false} RemainingSlotsNothingBooked(slots: seq<string>)
    ensures RemainingSlots(slots, []) == slots
  {
    if |slots| > 0 {
      RemainingSlotsNothingBooked(slots[1..]);
      assert slots == [slots[0]] + slots[1..];
    }
  }

  /** The Braces scenario: one booking of 10am on 2023-01-01 removes that
      slot on that date only. */
  lemma BracesScenario()
    ensures AvailableOptions([AppointmentOption("Braces", 99, ["9am", "10am", "11am"])],
                             [Booking("2023-01-01", "p@example.com", "Braces", "10am")], "2023-01-01")
            == [AppointmentOption("Braces", 99, ["9am", "11am"])]
    ensures AvailableOptions([AppointmentOption("Braces", 99, ["9am", "10am", "11am"])],
                             [Booking("2023-01-01", "p@example.com", "Braces", "10am")], "2023-01-02")
            == [AppointmentOption("Braces", 99, ["9am", "10am", "11am"])]
  {
    var option := AppointmentOption("Braces", 99, ["9am", "10am", "11am"]);
    var booking := Booking("2023-01-01", "p@example.com", "Braces", "10am");
    assert BookingsOn([booking], "2023-01-01") == [booking];
    assert BookedSlots([booking], "Braces") == ["10am"];
    assert RemainingSlots(["11am"], ["10am"]) == ["11am"];
    assert RemainingSlots(["10am", "11am"], ["10am"]) == ["11am"];
    assert RemainingSlots(option.slots, ["10am"]) == ["9am", "11am"];
    assert BookingsOn([booking], "2023-01-02") == [];
    RemainingSlotsNothingBooked(option.slots);
  }
}
