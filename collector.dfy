/**
 * lib/collector.js: the parent object that validates its own static labels,
 * creates named child collectors of the three kinds, hands an existing child
 * back when it is asked for again, and keeps every child in a registry keyed
 * by name.
 */
module Collectors {
  import opened Common
  import opened Labels
  import Counters
  import Histograms

  /** The serialization format collect() knows how to produce. */
  const PrometheusFormat: string := "prometheus-0.0.4"

  /**
   * A child collector as the registry sees it: its kind, its name and help,
   * the labels it was created with and the parent's static labels it
   * inherited.
   */
  datatype Child = Child(kind: Kind, name: string, help: string, labels: Option<Obj>, parentLabels: Option<Obj>)

  /**
   * What the constructor of a child of the given kind throws on these labels:
   * the Counter's metric vector rejects its merged static labels once they are
   * trimmed; the Histogram constructor checks nothing itself, and the Gauge is
   * not part of this model.
   */
  function BuildError(kind: Kind, labels: Option<Obj>, parentLabels: Option<Obj>): Option<Error>
  {
    if kind == CounterKind then FirstLabelError(Trim(MergeObjects(labels, parentLabels))) else None
  }

  /** Every child is filed under its own name. */
  ghost predicate Filed(registry: map<string, Child>)
  {
    forall n :: n in registry ==> registry[n].name == n
  }

  /**
   * createChild over a registry, with the name/help check and the child's
   * construction as parameters: a child already filed under the name is
   * returned when it has the requested kind and is a type conflict otherwise;
   * an absent name is validated, the child is built, and it is registered.
   */
  function Created(registry: map<string, Child>, kind: Kind, name: string, nameErr: Option<Error>,
                   buildErr: Option<Error>, child: Child): (r: Result<(Child, map<string, Child>)>)
  {
    if name in registry then
      if registry[name].kind == kind then Ok((registry[name], registry)) else Err(TypeConflict(name))
    else if nameErr.Some? then Err(nameErr.value)
    else if buildErr.Some? then Err(buildErr.value)
    else Ok((child, registry[name := child]))
  }

  /**
   * Whatever createChild returns, the registry keeps every child it had, each
   * under its own name, and the child returned has the requested name and
   * kind and is the one now filed under that name.
   */
  lemma CreatedKeeps(registry: map<string, Child>, kind: Kind, name: string, nameErr: Option<Error>,
                     buildErr: Option<Error>, child: Child)
    requires Filed(registry)
    requires child.name == name && child.kind == kind
    ensures var r := Created(registry, kind, name, nameErr, buildErr, child);
            r.Ok? ==> && Filed(r.value.1)
                      && name in r.value.1 && r.value.1[name] == r.value.0
                      && r.value.0.name == name && r.value.0.kind == kind
                      && forall n :: n in registry ==> n in r.value.1 && r.value.1[n] == registry[n]
    ensures var r := Created(registry, kind, name, nameErr, buildErr, child);
            r.Ok? ==> r.value.1.Keys == registry.Keys + {name}
  {
  }

  /**
   * Asking again for a child that was just created, with the same name and
   * kind, returns that same child and leaves the registry as it is, whatever
   * the second request's help and labels are.
   */
  lemma CreatedIdempotent(registry: map<string, Child>, kind: Kind, name: string, nameErr: Option<Error>,
                          buildErr: Option<Error>, child: Child,
                          nameErr2: Option<Error>, buildErr2: Option<Error>, child2: Child)
    requires child.kind == kind
    requires Created(registry, kind, name, nameErr, buildErr, child).Ok?
    ensures var (c, reg) := Created(registry, kind, name, nameErr, buildErr, child).value;
            Created(reg, kind, name, nameErr2, buildErr2, child2) == Ok((c, reg))
  {
  }

  /**
   * A name already filed under one kind cannot be created under another:
   * the request fails with a type conflict and the existing child stays.
   */
  lemma CreatedConflict(registry: map<string, Child>, kind: Kind, name: string, nameErr: Option<Error>,
                        buildErr: Option<Error>, child: Child)
    requires name in registry && registry[name].kind != kind
    ensures Created(registry, kind, name, nameErr, buildErr, child) == Err(TypeConflict(name))
  {
  }

  class Collector {
    /** The parent's labels, trimmed; null when the collector had no options. */
    const staticLabels: Option<Obj>
    var registry: map<string, Child>

    ghost predicate Valid()
      reads this
    {
      Filed(registry)
    }

    constructor Init(staticLabels: Option<Obj>)
      ensures this.staticLabels == staticLabels && registry == map[]
      ensures Valid()
    {
      this.staticLabels := staticLabels;
      registry := map[];
    }

    /**
     * The Collector constructor: with options, their labels are trimmed and
     * must pass checkValid, or the constructor throws; without options there
     * are no static labels. The registry starts empty.
     */
    static method Create(options: Option<Obj>) returns (r: Result<Collector>)
      ensures options.None? ==> r.Ok? && r.value.staticLabels == None
      ensures options.Some? && FirstLabelError(Trim(options.value)).Some? ==>
                r == Err(FirstLabelError(Trim(options.value)).value)
      ensures options.Some? && FirstLabelError(Trim(options.value)).None? ==>
                r.Ok? && r.value.staticLabels == Some(Trim(options.value))
      ensures r.Ok? ==> fresh(r.value) && r.value.registry == map[] && r.value.Valid()
    {
      if options.Some? {
        var trimmed := Trim(options.value);
        var err := CheckValid(Some(trimmed));
        if err.Some? {
          return Err(err.value);
        }
        var c := new Collector.Init(Some(trimmed));
        return Ok(c);
      }
      var c := new Collector.Init(None);
      return Ok(c);
    }

    /** getCollector: the child filed under the name, or null. */
    method GetCollector(name: string) returns (child: Option<Child>)
      ensures name in registry <==> child.Some?
      ensures child.Some? ==> child.value == registry[name]
    {
      if name in registry {
        return Some(registry[name]);
      }
      return None;
    }

    /**
     * register: a name that is already taken is an error and changes
     * nothing; otherwise the child is filed under its name.
     */
    method Register(child: Child) returns (err: Option<Error>)
      requires Valid()
      modifies this
      ensures Valid()
      ensures child.name in old(registry) ==> err == Some(AlreadyRegistered(child.name)) && registry == old(registry)
      ensures child.name !in old(registry) ==> err == None && registry == old(registry)[child.name := child]
    {
      var existing := GetCollector(child.name);
      if existing.Some? {
        return Some(AlreadyRegistered(child.name));
      }
      registry := registry[child.name := child];
      err := None;
    }

    /**
     * createChild (reached through counter(), gauge() and histogram()): the
     * outcome is Created with checkValidCollector as the name/help check and
     * the kind's constructor as the build step; every failure leaves the
     * registry as it was.
     */
    method CreateChild(name: string, help: string, labels: Option<Obj>, kind: Kind) returns (r: Result<Child>)
      requires Valid()
      modifies this
      ensures Valid()
      ensures var made := Created(old(registry), kind, name, CheckValidCollector(Str(name), Str(help)),
                                  BuildError(kind, labels, staticLabels), Child(kind, name, help, labels, staticLabels));
              && (r.Ok? <==> made.Ok?)
              && (r.Ok? ==> r.value == made.value.0 && registry == made.value.1)
              && (r.Err? ==> r.error == made.error && registry == old(registry))
    {
      var existing := GetCollector(name);
      if existing.Some? {
        if existing.value.kind != kind {
          return Err(TypeConflict(name));
        }
        return Ok(existing.value);
      }
      var nameErr := CheckValidCollector(Str(name), Str(help));
      if nameErr.Some? {
        return Err(nameErr.value);
      }
      if kind == CounterKind {
        var c := Counters.Counter.Create(name, help, labels, staticLabels);
        if c.Err? {
          return Err(c.error);
        }
      } else if kind == HistogramKind {
        var h := new Histograms.Histogram(name, help, labels, staticLabels);
      }
      var child := Child(kind, name, help, labels, staticLabels);
      // The name was absent a moment ago, so register cannot refuse it.
      var err := Register(child);
      assert err.None?;
      return Ok(child);
    }

    /**
     * collect for a format other than Prometheus text: the error is recorded
     * but the callback receives a null error and an empty string.
     */
    method CollectUnknown(format: string) returns (err: Option<Error>, text: string)
      requires format != PrometheusFormat
      ensures err == None && text == ""
    {
      err := None;
      text := "";
    }
  }
}
