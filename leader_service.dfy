/** The leader lookup service: three read-only queries over the fixed sequence
    of leaders the application ships with. That sequence is defined in a file
    this model does not include, so every query takes it as the parameter
    `leaders`; being a value, it cannot be changed by any of them. */
module LeaderService {
  import opened Wrappers
  import opened Js

  /** A leader record. The service reads only `id` and `featured`; the
      remaining descriptive fields are carried as `profile`. */
  datatype Leader = Leader(id: string, featured: bool, profile: map<string, string>)

  /** The filter predicate of `getLeader`. */
  function HasId(id: string): Leader -> bool
  {
    (l: Leader) => l.id == id
  }

  /** The filter predicate of `getFeaturedLeader`. */
  function IsFeatured(): Leader -> bool
  {
    (l: Leader) => l.featured
  }

  /** `getLeaders`: the leader sequence itself, every element in its place. */
  function GetLeaders(leaders: seq<Leader>): (r: seq<Leader>)
    ensures |r| == |leaders| && forall i :: 0 <= i < |r| ==> r[i] == leaders[i]
  {
    leaders
  }

  /** `getLeader(id)`: element 0 of the leaders whose id is `id`, which is
      `undefined` when there is none; the lookup never fails otherwise. */
  function GetLeader(leaders: seq<Leader>, id: string): (r: Option<Leader>)
    ensures r.Some? ==> r.value in leaders && r.value.id == id
    ensures r.None? <==> forall i :: 0 <= i < |leaders| ==> leaders[i].id != id
  {
    ElementAt(Filter(leaders, HasId(id)), 0)
  }

  /** `getFeaturedLeader`: element 0 of the featured leaders, or `undefined`. */
  function GetFeaturedLeader(leaders: seq<Leader>): (r: Option<Leader>)
    ensures r.Some? ==> r.value in leaders && r.value.featured
    ensures r.None? <==> forall i :: 0 <= i < |leaders| ==> !leaders[i].featured
  {
    ElementAt(Filter(leaders, IsFeatured()), 0)
  }

  /** `getLeader` returns the FIRST leader with the given id. */
  lemma GetLeaderIsFirstMatch(leaders: seq<Leader>, id: string, i: int)
    requires 0 <= i < |leaders| && leaders[i].id == id
    requires forall j :: 0 <= j < i ==> leaders[j].id != id
    ensures GetLeader(leaders, id) == Some(leaders[i])
  {
    FilterHead(leaders, HasId(id), i);
  }

  /** `getFeaturedLeader` returns the FIRST featured leader. */
  lemma GetFeaturedLeaderIsFirstFeatured(leaders: seq<Leader>, i: int)
    requires 0 <= i < |leaders| && leaders[i].featured
    requires forall j :: 0 <= j < i ==> !leaders[j].featured
    ensures GetFeaturedLeader(leaders) == Some(leaders[i])
  {
    FilterHead(leaders, IsFeatured(), i);
  }
}
