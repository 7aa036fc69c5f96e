/** The ride data model of the `queue_times` library (queue_times/src/model.rs):
    a ride's status, a named ride time, their `Default` values and the order
    that `#[derive(Ord)]` gives them. */
module RideModel {
  import Text
  import Sorting

  /** Rust's `u16`. */
  newtype u16 = x: int | 0 <= x < 0x1_0000

  /** Current operating status of a ride. */
  datatype RideStatus =
    | Open            // open, wait not given
    | Closed
    | Wait(minutes: u16)

  /** Current status of a named ride. */
  datatype RideTime = RideTime(name: string, status: RideStatus)

  /** `RideStatus::default()`. */
  function DefaultStatus(): (s: RideStatus)
    ensures s.Closed?
  {
    Closed
  }

  /** `RideTime::default()`: the derived default of each field. */
  function DefaultRideTime(): (r: RideTime)
    ensures r.name == "" && r.status == DefaultStatus()
  {
    RideTime("", DefaultStatus())
  }

  /** Position of the variant in the declaration, which the derived order compares first. */
  function VariantIndex(s: RideStatus): nat {
    match s
    case Open => 0
    case Closed => 1
    case Wait(_) => 2
  }

  /** Derived `<=` on `RideStatus`: the variant first, then the minutes of two waits. */
  predicate StatusLe(a: RideStatus, b: RideStatus) {
    if VariantIndex(a) != VariantIndex(b) then VariantIndex(a) < VariantIndex(b)
    else a.Wait? ==> a.minutes <= b.minutes
  }

  /** Derived `<=` on `RideTime`: by name (Rust's string order), then by status. */
  predicate RideTimeLe(a: RideTime, b: RideTime) {
    if a.name != b.name then Text.StringLe(a.name, b.name) else StatusLe(a.status, b.status)
  }

  /** The status order puts `Open` below `Closed` below every wait, and orders waits by minutes. */
  lemma StatusOrder(m: u16, n: u16)
    ensures StatusLe(Open, Closed) && !StatusLe(Closed, Open)
    ensures StatusLe(Closed, Wait(m)) && !StatusLe(Wait(m), Closed)
    ensures StatusLe(Open, Wait(m)) && !StatusLe(Wait(m), Open)
    ensures StatusLe(Wait(m), Wait(n)) <==> m <= n
  {
  }

  /** The derived order on `RideTime` is a total order: sorting by it is well defined. */
  lemma RideTimeOrderIsTotal()
    ensures Sorting.IsTotalOrder(RideTimeLe)
  {
    forall a, b ensures RideTimeLe(a, b) || RideTimeLe(b, a) {
      Text.StringLeTotal(a.name, b.name);
    }
    forall a, b, c | RideTimeLe(a, b) && RideTimeLe(b, c) ensures RideTimeLe(a, c) {
      if a.name != b.name && b.name != c.name {
        Text.StringLeTransitive(a.name, b.name, c.name);
        if a.name == c.name {
          Text.StringLeAntisymmetric(a.name, b.name);
        }
      }
    }
    forall a, b | RideTimeLe(a, b) && RideTimeLe(b, a) ensures a == b {
      if a.name != b.name {
        Text.StringLeAntisymmetric(a.name, b.name);
      }
    }
  }

  /** A ride time with a shorter name that is a prefix of the other comes first,
      whatever the statuses: the name decides before the status does. */
  lemma NameDecidesFirst(a: RideTime, b: RideTime)
    requires a.name != b.name && Text.StartsWith(b.name, a.name)
    ensures RideTimeLe(a, b) && !RideTimeLe(b, a)
  {
    PrefixStringLe(a.name, b.name);
  }

  lemma {:induction false} PrefixStringLe(p: string, s: string)
    requires p != s && Text.StartsWith(s, p)
    ensures Text.StringLe(p, s) && !Text.StringLe(s, p)
  {
    if p != [] {
      assert p[0] == s[0];
      assert Text.StartsWith(s[1..], p[1..]) by { assert s[1..][..|p[1..]|] == p[1..]; }
      assert p[1..] != s[1..] by { assert p == [p[0]] + p[1..]; assert s == [s[0]] + s[1..]; }
      PrefixStringLe(p[1..], s[1..]);
    }
  }
}
