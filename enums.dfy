/** The product categories of the TV catalogue, as a string-backed enum. */
module Enums {
  import opened Wrappers

  datatype TvCategory = Televizorji | TvDodatki
  {
    /** The backing string of each case. */
    function Value(): (v: string)
      ensures v != []
      ensures this == Televizorji <==> v == "Televizorji"
      ensures this == TvDodatki <==> v == "TV dodatki"
    {
      match this
      case Televizorji => "Televizorji"
      case TvDodatki => "TV dodatki"
    }
  }

  /** `TvCategory::tryFrom`: the case whose value is `value`, if any. */
  function TryFrom(value: string): (r: Option<TvCategory>)
    ensures r.Some? ==> r.value.Value() == value
    ensures r.None? <==> forall c: TvCategory :: c.Value() != value
  {
    if value == "Televizorji" then Some(Televizorji)
    else if value == "TV dodatki" then Some(TvDodatki)
    else None
  }

  /** The leaf categories of the "TV sprejemniki" group: every case once, televisions first. */
  function TvReceiversLeaf(): (r: seq<TvCategory>)
    ensures forall c: TvCategory :: c in r
    ensures forall i, j :: 0 <= i < j < |r| ==> r[i] != r[j]
    ensures r != [] && r[0] == Televizorji
  {
    var r := [Televizorji, TvDodatki];
    assert forall c: TvCategory :: c in r by {
      forall c: TvCategory ensures c in r {
        if c.Televizorji? { assert c == r[0]; } else { assert c == r[1]; }
      }
    }
    r
  }

  /** Case values are distinct, so a value names at most one case. */
  lemma ValueInjective(a: TvCategory, b: TvCategory)
    ensures a.Value() == b.Value() ==> a == b
  {
  }

  /** Looking a case up by its own value finds it again. */
  lemma TryFromValue(c: TvCategory)
    ensures TryFrom(c.Value()) == Some(c)
  {
  }

  /** The leaf values are pairwise distinct. */
  lemma LeafValuesDistinct()
    ensures forall i, j :: 0 <= i < j < |TvReceiversLeaf()| ==> TvReceiversLeaf()[i].Value() != TvReceiversLeaf()[j].Value()
  {
    var r := TvReceiversLeaf();
    forall i, j | 0 <= i < j < |r| ensures r[i].Value() != r[j].Value() {
      ValueInjective(r[i], r[j]);
    }
  }
}
