/** Machine-integer ranges and the outcome type shared by every module. */
module Base {
  const U64_MAX := 0xFFFF_FFFF_FFFF_FFFF
  const U32_MAX := 0xFFFF_FFFF

  type u64 = x: int | 0 <= x <= U64_MAX
  type u32 = x: int | 0 <= x <= U32_MAX
  type i64 = x: int | -0x8000_0000_0000_0000 <= x <= 0x7FFF_FFFF_FFFF_FFFF
  type InodeId = u64

  /** A source `Result` whose error value is not interpreted. */
  datatype Result<+T> = Ok(value: T) | Err

  /** A source `Result<()>`. */
  datatype Outcome = Pass | Fail

  /** A nonempty finite set of integers has a least element. */
  lemma {:induction false} LeastExists(s: set<u64>) returns (least: u64)
    requires s != {}
    ensures least in s
    ensures forall x | x in s :: least <= x
  {
    var first :| first in s;
    least := first;
    assert forall x | x in s :: x == first || x in s - {first};
    if s - {first} != {} {
      var other := LeastExists(s - {first});
      least := if other < first then other else first;
    }
  }

  function Least(s: set<u64>): (least: u64)
    requires s != {}
    ensures least in s
    ensures forall x | x in s :: least <= x
  {
    assert exists least :: least in s && forall x | x in s :: least <= x by {
      var least := LeastExists(s);
    }
    var least :| least in s && forall x | x in s :: least <= x;
    least
  }

  /** The iteration order of a BTreeMap or BTreeSet: strictly ascending. */
  function Ascending(s: set<u64>): (keys: seq<u64>)
    ensures |keys| == |s|
    ensures forall x :: x in keys <==> x in s
    ensures forall i, j | 0 <= i < j < |keys| :: keys[i] < keys[j]
  {
    if s == {} then [] else
      var least := Least(s);
      [least] + Ascending(s - {least})
  }

  /** The last key in iteration order. */
  function Greatest(s: set<u64>): (greatest: u64)
    requires s != {}
    ensures greatest in s
    ensures forall x | x in s :: x <= greatest
  {
    var keys := Ascending(s);
    assert forall x | x in s :: x in keys;
    keys[|keys| - 1]
  }
}
