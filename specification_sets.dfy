/**
 * Specification sets: the table from a directive byte to its appender, and
 * the resolution of the options `New` and `Format` accept into the table a
 * compilation uses.
 *
 * The package keeps one process-wide default set that is never mutable.
 * Go reaches it through a global; here it is passed in as `defaultSet`.
 */
module SpecificationSets {
  import opened Wrappers
  import opened Appenders

  /** The error `Lookup` reports for a byte with no entry. */
  datatype LookupError = NotFound(key: char)

  /** A directive table: which appender each directive byte selects, and whether it may be written. */
  class SpecificationSet {
    var mutable: bool
    var store: map<char, Appender>

    /** A set with the given flag and entries. */
    constructor (mutable: bool, store: map<char, Appender>)
      ensures this.mutable == mutable && this.store == store
    {
      this.mutable := mutable;
      this.store := store;
    }

    /** The appender registered for `c`, or `NotFound(c)`. */
    method Lookup(c: char) returns (r: Result<Appender, LookupError>)
      ensures r.Success? <==> c in store
      ensures r.Success? ==> r.value == store[c]
      ensures r.Failure? ==> r.error == NotFound(c)
    {
      if c in store {
        r := Success(store[c]);
      } else {
        r := Failure(NotFound(c));
      }
    }

    /** Registers `a` for `c`; refused, leaving the set as it was, when the set is not mutable. */
    method Set(c: char, a: Appender) returns (ok: bool)
      modifies this
      ensures ok == old(mutable) && mutable == old(mutable)
      ensures store == if ok then old(store)[c := a] else old(store)
    {
      ok := mutable;
      if ok {
        store := store[c := a];
      }
    }
  }

  /** A fresh mutable set seeded with every entry of the default set. */
  method NewSpecificationSet(defaultSet: SpecificationSet) returns (ds: SpecificationSet)
    ensures fresh(ds) && ds.mutable && ds.store == defaultSet.store
  {
    ds := new SpecificationSet(true, defaultSet.store);
  }

  /** One extra directive: the byte `name` renders with `appender`. */
  datatype Specification = Specification(name: char, appender: Appender)

  /** The two options the resolution understands. */
  datatype Option =
    | SpecificationSetOption(specificationSet: SpecificationSet)
    | SpecificationOption(spec: Specification)

  /** The base set: the set of the last `SpecificationSetOption`, or the default. */
  function Base(defaultSet: SpecificationSet, options: seq<Option>): (base: SpecificationSet)
    ensures base == defaultSet || exists i :: 0 <= i < |options| && options[i] == SpecificationSetOption(base)
  {
    if options == [] then defaultSet
    else if options[|options| - 1].SpecificationSetOption? then options[|options| - 1].specificationSet
    else Base(defaultSet, options[..|options| - 1])
  }

  /** The extra directives, in the order the options give them. */
  function Extras(options: seq<Option>): (extras: seq<Specification>)
    ensures |extras| <= |options|
    ensures forall e :: e in extras ==> SpecificationOption(e) in options
  {
    if options == [] then []
    else if options[|options| - 1].SpecificationOption? then Extras(options[..|options| - 1]) + [options[|options| - 1].spec]
    else Extras(options[..|options| - 1])
  }

  /** `store` with every extra registered, one after another. */
  function Overlay(store: map<char, Appender>, extras: seq<Specification>): map<char, Appender>
  {
    if extras == [] then store
    else Overlay(store, extras[..|extras| - 1])[extras[|extras| - 1].name := extras[|extras| - 1].appender]
  }

  /** The bytes the extras register. */
  function Names(extras: seq<Specification>): set<char>
  {
    set i | 0 <= i < |extras| :: extras[i].name
  }

  /** The table a compilation with these options consults, as it stands before resolution. */
  ghost function ResolvedStore(defaultSet: SpecificationSet, options: seq<Option>): map<char, Appender>
    reads Base(defaultSet, options), defaultSet
  {
    var base := Base(defaultSet, options);
    var extras := Extras(options);
    if extras == [] then base.store
    else if base.mutable then Overlay(base.store, extras)
    else Overlay(defaultSet.store, extras)
  }

  /**
   * The set the options select. Without extras it is the base, untouched.
   * With extras, an immutable base is replaced by a fresh copy of the
   * default and never written; a mutable base is updated in place. The
   * extras are registered in order, so a later one for the same byte wins.
   */
  method GetSpecificationSetFor(defaultSet: SpecificationSet, options: seq<Option>) returns (ds: SpecificationSet)
    requires !defaultSet.mutable
    modifies Base(defaultSet, options)
    ensures var base := Base(defaultSet, options);
      && base.mutable == old(base.mutable)
      && (!old(base.mutable) ==> unchanged(base))
      && (Extras(options) == [] ==> ds == base && unchanged(base))
      && (Extras(options) != [] && old(base.mutable) ==> ds == base && ds.store == Overlay(old(base.store), Extras(options)))
      && (Extras(options) != [] && !old(base.mutable) ==> fresh(ds) && ds.mutable && ds.store == Overlay(defaultSet.store, Extras(options)))
    ensures ds.store == old(ResolvedStore(defaultSet, options))
    ensures ResolvedStore(defaultSet, options) == old(ResolvedStore(defaultSet, options))
    ensures unchanged(defaultSet)
  {
    ds := defaultSet;
    var extraSpecifications: seq<Specification> := [];
    for k := 0 to |options|
      invariant ds == Base(defaultSet, options[..k])
      invariant extraSpecifications == Extras(options[..k])
    {
      assert options[..k + 1][..k] == options[..k];
      match options[k]
      case SpecificationSetOption(specificationSet) =>
        ds := specificationSet;
      case SpecificationOption(spec) =>
        extraSpecifications := extraSpecifications + [spec];
    }
    assert options[..|options|] == options;

    if |extraSpecifications| > 0 {
      if !ds.mutable {
        ds := NewSpecificationSet(defaultSet);
      }
      ghost var seed := ds.store;
      for k := 0 to |extraSpecifications|
        invariant ds.mutable
        invariant ds == Base(defaultSet, options) || fresh(ds)
        invariant Base(defaultSet, options).mutable == old(Base(defaultSet, options).mutable)
        invariant !old(Base(defaultSet, options).mutable) ==> unchanged(Base(defaultSet, options))
        invariant ds.store == Overlay(seed, extraSpecifications[..k])
      {
        assert extraSpecifications[..k + 1][..k] == extraSpecifications[..k];
        var ok := ds.Set(extraSpecifications[k].name, extraSpecifications[k].appender);
      }
      assert extraSpecifications[..|extraSpecifications|] == extraSpecifications;
      OverlayIdempotent(seed, extraSpecifications);
    }
  }

  /** Without a `SpecificationSetOption` the base is the default set. */
  lemma {:induction false} BaseDefault(defaultSet: SpecificationSet, options: seq<Option>)
    requires forall i :: 0 <= i < |options| ==> options[i].SpecificationOption?
    ensures Base(defaultSet, options) == defaultSet
  {
    if options != [] {
      BaseDefault(defaultSet, options[..|options| - 1]);
    }
  }

  /** The base is the set of the last `SpecificationSetOption`, whatever extras follow it. */
  lemma {:induction false} BaseLastWins(defaultSet: SpecificationSet, options: seq<Option>, j: nat)
    requires j < |options| && options[j].SpecificationSetOption?
    requires forall i :: j < i < |options| ==> options[i].SpecificationOption?
    ensures Base(defaultSet, options) == options[j].specificationSet
  {
    if j < |options| - 1 {
      var init := options[..|options| - 1];
      assert init[j] == options[j];
      BaseLastWins(defaultSet, init, j);
    }
  }

  /** Every single-directive option gives an extra. */
  lemma {:induction false} ExtrasComplete(options: seq<Option>)
    ensures forall i :: 0 <= i < |options| && options[i].SpecificationOption? ==> options[i].spec in Extras(options)
  {
    if options != [] {
      var init := options[..|options| - 1];
      ExtrasComplete(init);
      forall i | 0 <= i < |options| - 1 && options[i].SpecificationOption?
        ensures options[i].spec in Extras(options)
      {
        assert init[i] == options[i];
      }
    }
  }

  /** The extras of consecutive option lists are those of each list, in order. */
  lemma {:induction false} ExtrasConcat(o1: seq<Option>, o2: seq<Option>)
    ensures Extras(o1 + o2) == Extras(o1) + Extras(o2)
    decreases |o2|
  {
    if o2 == [] {
      assert o1 + o2 == o1;
    } else {
      var init := o2[..|o2| - 1];
      assert (o1 + o2)[..|o1 + o2| - 1] == o1 + init;
      ExtrasConcat(o1, init);
    }
  }

  /**
   * The single-directive option at `j` is the extra at the position counting
   * the extras before it, and a later extra names its byte only when a later
   * option does.
   */
  lemma ExtrasAt(options: seq<Option>, j: nat, spec: Specification)
    requires j < |options| && options[j] == SpecificationOption(spec)
    requires forall i :: j < i < |options| && options[i].SpecificationOption? ==> options[i].spec.name != spec.name
    ensures var extras, k := Extras(options), |Extras(options[..j])|;
      && k < |extras| && extras[k] == spec
      && forall i :: k < i < |extras| ==> extras[i].name != spec.name
  {
    var before, after := options[..j], options[j + 1..];
    assert options == before + [options[j]] + after;
    ExtrasConcat(before + [options[j]], after);
    ExtrasConcat(before, [options[j]]);
    assert Extras([options[j]]) == [spec] by {
      assert [options[j]][..0] == [];
    }
    ExtrasAvoid(after, spec.name);
    assert Extras(options) == Extras(before) + [spec] + Extras(after);
  }

  /** Options that never name `c` in a single directive give no extra for `c`. */
  lemma ExtrasAvoid(options: seq<Option>, c: char)
    requires forall i :: 0 <= i < |options| && options[i].SpecificationOption? ==> options[i].spec.name != c
    ensures forall e :: e in Extras(options) ==> e.name != c
  {
    forall e | e in Extras(options)
      ensures e.name != c
    {
      var m :| 0 <= m < |options| && options[m] == SpecificationOption(e);
    }
  }

  /**
   * A single-directive option that no later single-directive option
   * overrides gives its byte's entry in the resolved table, whatever the
   * base.
   */
  lemma ResolvedLastWins(defaultSet: SpecificationSet, options: seq<Option>, j: nat, spec: Specification)
    requires j < |options| && options[j] == SpecificationOption(spec)
    requires forall i :: j < i < |options| && options[i].SpecificationOption? ==> options[i].spec.name != spec.name
    ensures spec.name in ResolvedStore(defaultSet, options)
    ensures ResolvedStore(defaultSet, options)[spec.name] == spec.appender
  {
    ExtrasAt(options, j, spec);
    var k := |Extras(options[..j])|;
    OverlayLastWins(Base(defaultSet, options).store, Extras(options), k);
    OverlayLastWins(defaultSet.store, Extras(options), k);
  }

  /** Outside the extras' names the overlay is the store itself. */
  lemma {:induction false} OverlayUntouched(store: map<char, Appender>, extras: seq<Specification>, c: char)
    requires c !in Names(extras)
    ensures (c in Overlay(store, extras)) == (c in store)
    ensures c in store ==> Overlay(store, extras)[c] == store[c]
  {
    if extras != [] {
      var init := extras[..|extras| - 1];
      assert Names(init) <= Names(extras) by {
        forall n | n in Names(init) ensures n in Names(extras) {
          var i :| 0 <= i < |init| && init[i].name == n;
          assert extras[i].name == n;
        }
      }
      assert extras[|extras| - 1].name in Names(extras);
      OverlayUntouched(store, init, c);
    }
  }

  /** For a byte some extra registers, the last extra naming it wins. */
  lemma {:induction false} OverlayLastWins(store: map<char, Appender>, extras: seq<Specification>, j: nat)
    requires j < |extras|
    requires forall i :: j < i < |extras| ==> extras[i].name != extras[j].name
    ensures extras[j].name in Overlay(store, extras)
    ensures Overlay(store, extras)[extras[j].name] == extras[j].appender
  {
    if j < |extras| - 1 {
      var init := extras[..|extras| - 1];
      assert init[j] == extras[j];
      OverlayLastWins(store, init, j);
    }
  }

  /** Which bytes the overlay holds: those of the store and those the extras name. */
  lemma {:induction false} OverlayKeys(store: map<char, Appender>, extras: seq<Specification>)
    ensures Overlay(store, extras).Keys == store.Keys + Names(extras)
  {
    if extras != [] {
      var init := extras[..|extras| - 1];
      OverlayKeys(store, init);
      assert Names(extras) == Names(init) + {extras[|extras| - 1].name} by {
        forall n | n in Names(extras) ensures n in Names(init) + {extras[|extras| - 1].name} {
          var i :| 0 <= i < |extras| && extras[i].name == n;
          if i < |extras| - 1 { assert init[i].name == n; }
        }
        forall n | n in Names(init) ensures n in Names(extras) {
          var i :| 0 <= i < |init| && init[i].name == n;
          assert extras[i].name == n;
        }
      }
    } else {
      assert Names(extras) == {};
    }
  }

  /** Above a byte the extras name, the store beneath makes no difference. */
  lemma {:induction false} OverlayShadows(store1: map<char, Appender>, store2: map<char, Appender>, extras: seq<Specification>, c: char)
    requires c in Names(extras)
    ensures c in Overlay(store1, extras) && c in Overlay(store2, extras)
    ensures Overlay(store1, extras)[c] == Overlay(store2, extras)[c]
  {
    var init := extras[..|extras| - 1];
    var last := extras[|extras| - 1];
    if c != last.name {
      var i :| 0 <= i < |extras| && extras[i].name == c;
      assert init[i].name == c;
      OverlayShadows(store1, store2, init, c);
    }
  }

  /** Registering the same extras a second time changes nothing. */
  lemma OverlayIdempotent(store: map<char, Appender>, extras: seq<Specification>)
    ensures Overlay(Overlay(store, extras), extras) == Overlay(store, extras)
  {
    var once := Overlay(store, extras);
    var twice := Overlay(once, extras);
    OverlayKeys(store, extras);
    OverlayKeys(once, extras);
    forall c | c in once
      ensures twice[c] == once[c]
    {
      if c in Names(extras) {
        OverlayShadows(once, store, extras, c);
      } else {
        OverlayUntouched(once, extras, c);
      }
    }
  }
}
