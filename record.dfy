/**
 A commit record is a PHP `stdClass` whose properties are created on first
 assignment. `Record` is the value of its property table (names in the order
 they were first assigned, and their string values); `Commit` is the mutable
 object that the parser fills in place.
 */
module CommitRecord {

  datatype Record = Record(names: seq<string>, props: map<string, string>) {

    /** The names are distinct and are exactly the properties that exist. */
    ghost predicate Valid() {
      && (forall i, j :: 0 <= i < j < |names| ==> names[i] != names[j])
      && (forall k :: k in props <==> k in names)
    }

    /** `property_exists($commit, name)` */
    predicate Has(name: string) {
      name in props
    }

    function Get(name: string): string
      requires Has(name)
    {
      props[name]
    }

    /**
     `$commit->{name} = value`: the property holds the value afterwards, no
     other property changes, an existing property keeps its place in the
     order and a new one is placed last.
     */
    function Set(name: string, value: string): (r: Record)
      ensures r.Has(name) && r.Get(name) == value
      ensures forall k :: k != name ==> (r.Has(k) <==> Has(k))
      ensures forall k :: k != name && Has(k) ==> r.Get(k) == Get(k)
      ensures Has(name) ==> r.names == names
      ensures !Has(name) ==> r.names == names + [name]
      ensures Valid() ==> r.Valid()
    {
      Record(if name in props then names else names + [name], props[name := value])
    }
  }

  /** `new \stdClass`: an object without properties. */
  const Empty := Record([], map[])

  /** Assigning a property twice leaves the same object as assigning the second value once. */
  lemma SetTwice(r: Record, name: string, a: string, b: string)
    ensures r.Set(name, a).Set(name, b) == r.Set(name, b)
  {
    assert r.props[name := a][name := b] == r.props[name := b];
  }

  /** A `stdClass` instance that the parser mutates in place. */
  class Commit {
    var names: seq<string>
    var props: map<string, string>

    /** The property table this object holds now. */
    function Value(): Record
      reads this
    {
      Record(names, props)
    }

    constructor ()
      ensures Value() == Empty
    {
      names := [];
      props := map[];
    }

    predicate Has(name: string)
      reads this
    {
      name in props
    }

    function Get(name: string): string
      reads this
      requires Has(name)
    {
      props[name]
    }

    /** Property assignment on this object. */
    method Set(name: string, value: string)
      modifies this
      ensures Value() == old(Value()).Set(name, value)
    {
      if name !in props {
        names := names + [name];
      }
      props := props[name := value];
    }
  }

  /** The property tables of a list of objects, in list order. */
  function Values(cs: seq<Commit>): seq<Record>
    reads cs
  {
    if cs == [] then [] else Values(cs[..|cs| - 1]) + [cs[|cs| - 1].Value()]
  }

  lemma {:induction false} ValuesAt(cs: seq<Commit>)
    ensures |Values(cs)| == |cs|
    ensures forall i :: 0 <= i < |cs| ==> Values(cs)[i] == cs[i].Value()
  {
    if cs != [] {
      ValuesAt(cs[..|cs| - 1]);
    }
  }
}
