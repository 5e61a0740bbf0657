/**
 * What the two tool adapters hand back to the agent: a string, or an
 * exception that escapes the tool.
 */
module Replies {
  import opened Text
  import opened Filter

  /**
   * `Answer` is the returned string; `KeyErrorRaised(key)` is a `KeyError`
   * for a missing row label escaping the tool, `AttributeErrorRaised` the
   * `AttributeError` of `initial_filtering` escaping it.
   */
  datatype Reply = Answer(text: string) | KeyErrorRaised(key: string) | AttributeErrorRaised

  /** The separator between two result entries. */
  const EntrySeparator := ", "

  /** `f"{row['university_name']} - {row['course_or_degree_name']}"`. */
  function Entry(p: Pair): (e: string)
    ensures |e| == |p.university| + 3 + |p.course|
    ensures e[..|p.university|] == p.university && e[|e| - |p.course|..] == p.course
  {
    p.university + " - " + p.course
  }

  /** One entry per pair, in order. */
  function Entries(ps: seq<Pair>): (r: seq<string>)
    ensures |r| == |ps|
    ensures forall i :: 0 <= i < |ps| ==> r[i] == Entry(ps[i])
  {
    seq(|ps|, i requires 0 <= i < |ps| => Entry(ps[i]))
  }

  lemma EntriesConcat(a: seq<Pair>, b: seq<Pair>)
    ensures Entries(a + b) == Entries(a) + Entries(b)
  {
  }

  /** The total length of the entries: each is its two texts and " - ". */
  function PairsLength(ps: seq<Pair>): nat
    decreases |ps|
  {
    if ps == [] then 0 else |ps[0].university| + 3 + |ps[0].course| + PairsLength(ps[1..])
  }

  lemma {:induction false} EntriesLength(ps: seq<Pair>)
    ensures TotalLength(Entries(ps)) == PairsLength(ps)
    decreases |ps|
  {
    if ps != [] {
      assert Entries(ps)[1..] == Entries(ps[1..]);
      EntriesLength(ps[1..]);
    }
  }

  /**
   * The joined answer for a non-empty list of pairs is as long as its
   * entries plus one ", " between each neighbouring pair.
   */
  lemma JoinedEntriesLength(ps: seq<Pair>)
    requires ps != []
    ensures |Join(Entries(ps), EntrySeparator)| == PairsLength(ps) + 2 * (|ps| - 1)
  {
    JoinLength(Entries(ps), EntrySeparator);
    EntriesLength(ps);
  }
}
