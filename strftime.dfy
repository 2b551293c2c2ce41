/**
 * The package's entry points. `Format` resolves the options, compiles the
 * pattern straight into an output buffer and returns the text; `New`
 * resolves the options the same way, compiles the pattern into a list of
 * appenders and wraps it in a reusable `Strftime`, whose `FormatString`
 * renders that list for any timestamp.
 */
module Strftime {
  import opened Wrappers
  import opened Appenders
  import opened SpecificationSets
  import opened Compiler

  /** A compiled pattern: the pattern text and the appenders it compiled to. */
  datatype Strftime = Strftime(pattern: string, compiled: seq<Appender>)
  {
    /** The pattern this object was compiled from. */
    function Pattern(): string
    {
      pattern
    }

    /** Renders `t` with every compiled appender in turn, after what `b` already holds. */
    method FormatInto(b: string, t: Time) returns (out: string)
      ensures out == b + RenderAll(compiled, t)
    {
      out := b;
      for k := 0 to |compiled|
        invariant out == b + RenderAll(compiled[..k], t)
      {
        RenderAllSnoc(compiled[..k], compiled[k], t);
        assert compiled[..k + 1] == compiled[..k] + [compiled[k]];
        out := Append(compiled[k], out, t);
      }
      assert compiled[..|compiled|] == compiled;
    }

    /** The text for `t`: exactly what the compiled appenders render. */
    method FormatString(t: Time) returns (s: string)
      ensures s == RenderAll(compiled, t)
    {
      s := FormatInto([], t);
    }
  }

  /** The text a pattern compiled against `table` renders for `t`. */
  function Rendered(p: string, table: map<char, Appender>, t: Time): string
  {
    RenderAll(AppendersOf(Scan(p, table).tokens), t)
  }

  /**
   * Formats `t` by `p` in one pass. On a compilation error the text is
   * empty; otherwise it is the rendering of every appender the pattern
   * compiles to against the table the options select.
   */
  method Format(defaultSet: SpecificationSet, p: string, t: Time, options: seq<Option>)
      returns (s: string, err: Outcome<CompileError>)
    requires !defaultSet.mutable
    modifies Base(defaultSet, options)
    ensures err == Scan(p, old(ResolvedStore(defaultSet, options))).outcome
    ensures err.Fail? ==> s == []
    ensures ResolvedStore(defaultSet, options) == old(ResolvedStore(defaultSet, options)) && unchanged(defaultSet)
    ensures var base := Base(defaultSet, options);
      && base.mutable == old(base.mutable)
      && (!old(base.mutable) ==> unchanged(base))
      && (Extras(options) == [] ==> unchanged(base))
      && (Extras(options) != [] && old(base.mutable) ==> base.store == Overlay(old(base.store), Extras(options)))
    ensures err.Pass? ==> s == Rendered(p, old(ResolvedStore(defaultSet, options)), t)
  {
    var ds := GetSpecificationSetFor(defaultSet, options);
    var h := new CompileHandler.Executor(t);
    err := Compile(h, p, ds);
    if err.Fail? {
      return [], err;
    }
    assert h.handled == AppendersOf(Scan(p, ds.store).tokens);
    s := h.dst;
  }

  /**
   * Compiles `p` into a reusable `Strftime`, or reports why it cannot.
   * The object keeps `p` as its pattern and holds every appender the
   * pattern compiles to against the table the options select.
   */
  method New(defaultSet: SpecificationSet, p: string, options: seq<Option>) returns (r: Result<Strftime, CompileError>)
    requires !defaultSet.mutable
    modifies Base(defaultSet, options)
    ensures r.Success? <==> Scan(p, old(ResolvedStore(defaultSet, options))).outcome.Pass?
    ensures r.Failure? ==> Fail(r.error) == Scan(p, old(ResolvedStore(defaultSet, options))).outcome
    ensures r.Success? ==> r.value.Pattern() == p
    ensures ResolvedStore(defaultSet, options) == old(ResolvedStore(defaultSet, options)) && unchanged(defaultSet)
    ensures var base := Base(defaultSet, options);
      && base.mutable == old(base.mutable)
      && (!old(base.mutable) ==> unchanged(base))
      && (Extras(options) == [] ==> unchanged(base))
      && (Extras(options) != [] && old(base.mutable) ==> base.store == Overlay(old(base.store), Extras(options)))
    ensures r.Success? ==> r.value.compiled == AppendersOf(Scan(p, old(ResolvedStore(defaultSet, options))).tokens)
  {
    var ds := GetSpecificationSetFor(defaultSet, options);
    var h := new CompileHandler.ListBuilder();
    var err := Compile(h, p, ds);
    if err.Fail? {
      return Failure(err.error);
    }
    return Success(Strftime(p, h.list));
  }

  /**
   * `Format` and `New` followed by `FormatString` agree: they fail on the
   * same patterns with the same error and otherwise give the same text,
   * even though resolving the options twice may write a mutable base set
   * twice.
   */
  method FormatAgreesWithNew(defaultSet: SpecificationSet, p: string, t: Time, options: seq<Option>)
      returns (s: string, err: Outcome<CompileError>, r: Result<Strftime, CompileError>, s': string)
    requires !defaultSet.mutable
    modifies Base(defaultSet, options)
    ensures r.Success? <==> err.Pass?
    ensures r.Failure? ==> Fail(r.error) == err && s == []
    ensures r.Success? ==> r.value.Pattern() == p && s' == s
  {
    s, err := Format(defaultSet, p, t, options);
    r := New(defaultSet, p, options);
    s' := [];
    if r.Success? {
      s' := r.value.FormatString(t);
    }
  }
}
