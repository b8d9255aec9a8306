/** The reward table loaded from the configuration file: entries in file
    order, each a condition name and the score it awards. The conditions
    themselves are strings evaluated by the host language, so a step sees
    only the set of names whose condition held. */
module Rewards {
  import opened Wrappers

  datatype Reward = Reward(name: string, score: real)

  /** The names of a dictionary's keys are distinct. */
  predicate Distinct(cfg: seq<Reward>) {
    forall i, j :: 0 <= i < j < |cfg| ==> cfg[i].name != cfg[j].name
  }

  predicate Named(cfg: seq<Reward>, name: string) {
    exists i :: 0 <= i < |cfg| && cfg[i].name == name
  }

  /** The sum of the scores of the fired entries, added up in table order. */
  function Gain(cfg: seq<Reward>, fired: set<string>): real {
    if cfg == [] then 0.0
    else Gain(cfg[..|cfg| - 1], fired) + (if cfg[|cfg| - 1].name in fired then cfg[|cfg| - 1].score else 0.0)
  }

  /** How many fired entries carry the name `name`. */
  function Tally(cfg: seq<Reward>, fired: set<string>, name: string): nat {
    if cfg == [] then 0
    else Tally(cfg[..|cfg| - 1], fired, name) + (if cfg[|cfg| - 1].name in fired && cfg[|cfg| - 1].name == name then 1 else 0)
  }

  /** In a table with distinct names a fired name is counted exactly once,
      and a name that did not fire or is not in the table not at all. */
  lemma {:induction false} TallyOnce(cfg: seq<Reward>, fired: set<string>, name: string)
    requires Distinct(cfg)
    ensures Tally(cfg, fired, name) == if name in fired && Named(cfg, name) then 1 else 0
  {
    if cfg != [] {
      var init := cfg[..|cfg| - 1];
      assert Distinct(init);
      TallyOnce(init, fired, name);
      if cfg[|cfg| - 1].name == name {
        assert !Named(init, name);
      } else {
        assert Named(cfg, name) ==> Named(init, name);
      }
    }
  }

  /** `reward_config[name]['score']`; `None` is the KeyError of a missing key. */
  function ScoreOf(cfg: seq<Reward>, name: string): (r: Option<real>)
    ensures r.Some? <==> Named(cfg, name)
    ensures r.Some? ==> exists i :: 0 <= i < |cfg| && cfg[i] == Reward(name, r.value)
  {
    if cfg == [] then None
    else if cfg[|cfg| - 1].name == name then Some(cfg[|cfg| - 1].score)
    else
      var r := ScoreOf(cfg[..|cfg| - 1], name);
      assert Named(cfg, name) ==> Named(cfg[..|cfg| - 1], name);
      r
  }

  /** `math.ceil` on a real number. */
  function Ceil(r: real): (c: int)
    ensures r <= c as real < r + 1.0
  {
    if r.Floor as real == r then r.Floor else r.Floor + 1
  }

  /** The exploration bonus of a step: nothing when no floor tile was newly
      explored, otherwise `ceil(count * reward_config['explore']['score'])`,
      which is the KeyError `None` when the table has no `explore` entry. */
  function ExploreBonus(cfg: seq<Reward>, count: nat): (b: Option<real>)
    ensures b.None? <==> count > 0 && !Named(cfg, "explore")
    ensures count == 0 ==> b == Some(0.0)
    ensures count > 0 && b.Some? ==>
      var s := ScoreOf(cfg, "explore").value;
      count as real * s <= b.value < count as real * s + 1.0
    ensures b.Some? ==> b.value == b.value.Floor as real
  {
    if count == 0 then Some(0.0)
    else match ScoreOf(cfg, "explore")
      case None => None
      case Some(s) => Some(Ceil(count as real * s) as real)
  }
}
