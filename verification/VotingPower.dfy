/** The canonical validator set: voting power of a set of addresses, and the
    quorum arithmetic behind every two-thirds threshold. */
module VotingPower {
  import opened Prelude

  datatype Validator = Validator(address: string, power: nat, pubKey: Option<bytes>)

  ghost predicate DistinctAddresses(vals: seq<Validator>) {
    forall i, j :: 0 <= i < j < |vals| ==> vals[i].address != vals[j].address
  }

  /** GetByAddress: the member with this address, if there is one. */
  function Find(vals: seq<Validator>, address: string): Option<Validator> {
    if vals == [] then None
    else if vals[0].address == address then Some(vals[0])
    else Find(vals[1..], address)
  }

  /** Power held together by the members whose address is in `who`. */
  function Power(vals: seq<Validator>, who: set<string>): nat {
    if vals == [] then 0
    else (if vals[0].address in who then vals[0].power else 0) + Power(vals[1..], who)
  }

  function Total(vals: seq<Validator>): nat {
    if vals == [] then 0 else vals[0].power + Total(vals[1..])
  }

  /** The threshold a tally has to exceed. */
  function MajorityVP(vals: seq<Validator>): nat {
    Total(vals) * 2 / 3
  }

  lemma {:induction false} FindIsMember(vals: seq<Validator>, address: string)
    ensures Find(vals, address).Some? ==>
              Find(vals, address).value in vals && Find(vals, address).value.address == address
    ensures Find(vals, address).None? ==> forall v :: v in vals ==> v.address != address
  {
    if vals != [] && vals[0].address != address {
      FindIsMember(vals[1..], address);
    }
  }

  lemma {:induction false} PowerEmpty(vals: seq<Validator>)
    ensures Power(vals, {}) == 0
  {
    if vals != [] { PowerEmpty(vals[1..]); }
  }

  lemma {:induction false} PowerMonotone(vals: seq<Validator>, s: set<string>, t: set<string>)
    requires s <= t
    ensures Power(vals, s) <= Power(vals, t) <= Total(vals)
  {
    if vals != [] { PowerMonotone(vals[1..], s, t); }
  }

  lemma {:induction false} PowerUnion(vals: seq<Validator>, s: set<string>, t: set<string>)
    ensures Power(vals, s + t) + Power(vals, s * t) == Power(vals, s) + Power(vals, t)
  {
    if vals != [] { PowerUnion(vals[1..], s, t); }
  }

  lemma {:induction false} PowerOutside(vals: seq<Validator>, s: set<string>, address: string)
    requires forall v :: v in vals ==> v.address != address
    ensures Power(vals, s + {address}) == Power(vals, s)
  {
    if vals != [] { PowerOutside(vals[1..], s, address); }
  }

  /** Counting one more voter adds exactly its canonical power. */
  lemma {:induction false} PowerAdd(vals: seq<Validator>, s: set<string>, address: string)
    requires DistinctAddresses(vals)
    requires address !in s
    ensures Power(vals, s + {address})
         == Power(vals, s) + (if Find(vals, address).Some? then Find(vals, address).value.power else 0)
  {
    if vals == [] {
    } else if vals[0].address == address {
      PowerOutside(vals[1..], s, address);
    } else {
      assert DistinctAddresses(vals[1..]);
      PowerAdd(vals[1..], s, address);
    }
  }

  /** Two quorums share members holding more than a third of all power. */
  lemma QuorumIntersection(vals: seq<Validator>, s: set<string>, t: set<string>)
    requires Power(vals, s) > MajorityVP(vals)
    requires Power(vals, t) > MajorityVP(vals)
    ensures 3 * Power(vals, s * t) > Total(vals)
  {
    PowerUnion(vals, s, t);
    PowerMonotone(vals, s + t, s + t);
  }

  /** Disjoint groups of voters cannot both hold a quorum. */
  lemma DisjointQuorums(vals: seq<Validator>, s: set<string>, t: set<string>)
    requires s !! t
    ensures Power(vals, s) + Power(vals, t) <= Total(vals)
    ensures !(Power(vals, s) > MajorityVP(vals) && Power(vals, t) > MajorityVP(vals))
  {
    PowerUnion(vals, s, t);
    PowerMonotone(vals, s + t, s + t);
    assert s * t == {};
    PowerEmpty(vals);
  }

  /** The threshold is two thirds exactly: integer division loses nothing. */
  lemma MajorityIsTwoThirds(vals: seq<Validator>, s: set<string>)
    ensures Power(vals, s) > MajorityVP(vals) <==> 3 * Power(vals, s) > 2 * Total(vals)
  {
  }

  /** The total is what everybody together holds. */
  lemma {:induction false} TotalIsEverybody(vals: seq<Validator>, s: set<string>)
    requires forall v :: v in vals ==> v.address in s
    ensures Power(vals, s) == Total(vals)
  {
    if vals != [] { TotalIsEverybody(vals[1..], s); }
  }

  /** A validator alone holds its own power. */
  lemma PowerOfOne(vals: seq<Validator>, v: Validator)
    requires DistinctAddresses(vals) && v in vals
    ensures Power(vals, {v.address}) == v.power
  {
    FindIsMember(vals, v.address);
    PowerEmpty(vals);
    PowerAdd(vals, {}, v.address);
    assert {} + {v.address} == {v.address};
  }
}
