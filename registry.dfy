/** The subject registries: `Bench`, `BenchWithOneSubject` and
    `BenchWithManySubjects`, without their `run` methods (those differ
    between the two harnesses and live in the engine modules). */
module Registry {
  import opened Model
  import opened Builder
  import opened LinkedMaps

  const AlreadyExists := "Subject already exists: "

  /** Every `put` in the harness keys a spec by its own name. */
  ghost predicate KeyedByName(es: seq<(string, Spec)>)
  {
    forall i :: 0 <= i < |es| ==> es[i].0 == es[i].1.name
  }

  /** The entries `BenchWithOneSubject.addSubject` puts, first then second,
      with no duplicate check: equal names keep one entry, the second spec. */
  function TwoSubjects(first: Spec, second: Spec): seq<(string, Spec)>
  {
    if first.name == second.name then [(second.name, second)]
    else [(first.name, first), (second.name, second)]
  }

  class BenchWithManySubjects {
    const subjects: LinkedMap<Spec>

    ghost predicate Valid()
      reads this, subjects
    {
      subjects.Valid() && KeyedByName(subjects.entries)
    }

    /** `BenchWithManySubjects(Map)`: keeps the very map it is given. */
    constructor OfMap(m: LinkedMap<Spec>)
      requires m.Valid() && KeyedByName(m.entries)
      ensures subjects == m && Valid()
    {
      subjects := m;
    }

    /** `BenchWithManySubjects(Spec)`: a fresh map holding the one spec. */
    constructor OfSpec(s: Spec)
      ensures Valid() && fresh(subjects) && subjects.entries == [(s.name, s)]
    {
      var m := new LinkedMap<Spec>();
      m.Put(s.name, s);
      subjects := m;
    }

    /** The public `BenchWithManySubjects()`: an empty registry. */
    constructor ()
      ensures Valid() && fresh(subjects) && subjects.entries == []
    {
      subjects := new LinkedMap<Spec>();
    }

    /** The specs in registration order: what `run` iterates over. */
    function Specs(): (specs: seq<Spec>)
      reads this, subjects
      requires Valid()
      ensures Distinct(Names(specs))
      ensures |specs| == |subjects.entries|
      ensures forall i :: 0 <= i < |specs| ==> specs[i] == subjects.entries[i].1
    {
      var specs := subjects.Values();
      assert forall i :: 0 <= i < |specs| ==> Names(specs)[i] == KeysOf(subjects.entries)[i];
      specs
    }

    /** `addSubject`: `made` is what the caller's function returned or threw.
        A name already present throws and leaves this registry as it is;
        otherwise a new registry holds the old entries, in order, and then
        the new spec. */
    method AddSubject(made: Outcome<Spec>) returns (r: Outcome<BenchWithManySubjects>)
      requires Valid()
      ensures Valid() && subjects.entries == old(subjects.entries)
      ensures made.Threw? ==> r == Threw(made.error)
      ensures made.Done? && made.value.name in KeysOf(subjects.entries) ==>
        r == Threw(IllegalArgument(AlreadyExists + made.value.name))
      ensures made.Done? && made.value.name !in KeysOf(subjects.entries) ==>
        && r.Done? && fresh(r.value) && fresh(r.value.subjects) && r.value.Valid()
        && r.value.subjects.entries == subjects.entries + [(made.value.name, made.value)]
    {
      if made.Threw? {
        return Threw(made.error);
      }
      var spec := made.value;
      if subjects.ContainsKey(spec.name) {
        return Threw(IllegalArgument(AlreadyExists + spec.name));
      }
      var newSubjects := new LinkedMap<Spec>.Copy(subjects);
      newSubjects.Put(spec.name, spec);
      var bench := new BenchWithManySubjects.OfMap(newSubjects);
      return Done(bench);
    }
  }

  class BenchWithOneSubject {
    const subject: Spec

    constructor (s: Spec)
      ensures subject == s
    {
      subject := s;
    }

    /** `addSubject`: a fresh map with `put(first)` then `put(second)`. */
    method AddSubject(made: Outcome<AddEnd>) returns (r: Outcome<BenchWithManySubjects>)
      ensures made.Threw? ==> r == Threw(made.error)
      ensures made.Done? ==>
        && r.Done? && fresh(r.value) && fresh(r.value.subjects) && r.value.Valid()
        && r.value.subjects.entries == TwoSubjects(subject, made.value.spec)
    {
      if made.Threw? {
        return Threw(made.error);
      }
      var newSubject := made.value.spec;
      var subjects := new LinkedMap<Spec>();
      subjects.Put(subject.name, subject);
      assert subjects.entries == [(subject.name, subject)];
      subjects.Put(newSubject.name, newSubject);
      assert KeysOf([(subject.name, subject)]) == [subject.name];
      assert subjects.entries == TwoSubjects(subject, newSubject);
      var bench := new BenchWithManySubjects.OfMap(subjects);
      return Done(bench);
    }
  }

  class Bench {
    /** `new Bench()`: the entry point has no state. */
    constructor ()
    {
    }

    /** `Bench.bench()`: a new entry point, shared with nothing. */
    static method Create() returns (b: Bench)
      ensures fresh(b)
    {
      b := new Bench();
    }

    /** `addSubject`: wraps the spec the caller's builder chain finished. */
    method AddSubject(made: Outcome<AddEnd>) returns (r: Outcome<BenchWithOneSubject>)
      ensures made.Threw? ==> r == Threw(made.error)
      ensures made.Done? ==> r.Done? && fresh(r.value) && r.value.subject == made.value.spec
    {
      if made.Threw? {
        return Threw(made.error);
      }
      var one := new BenchWithOneSubject(made.value.spec);
      return Done(one);
    }
  }
}
