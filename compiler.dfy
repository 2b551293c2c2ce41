/**
 * The pattern compiler: it scans a strftime pattern once, left to right,
 * and hands each appender it resolves to a handler. One handler collects
 * the appenders into a list (for a reusable `Strftime`); the other renders
 * each one into a buffer at once (for the one-shot `Format`).
 *
 * `Scan` states what the scan hands over and how it ends; `Compile` is the
 * loop that performs it and is proved to follow `Scan`.
 */
module Compiler {
  import opened Wrappers
  import opened Appenders
  import opened SpecificationSets

  /** The two ways a compilation fails. */
  datatype CompileError =
    | StrayPercent              // a `%` is the last byte of the pattern
    | UnknownDirective(key: char)  // the byte after `%` has no entry in the set

  /** How one piece of the pattern was read: a literal run, or `%` and its key. */
  datatype Token =
    | Text(text: string)
    | Escape(key: char, appender: Appender)

  /** The tokens handed over, and how the scan ended. */
  datatype Scanned = Scanned(tokens: seq<Token>, outcome: Outcome<CompileError>)

  /** The appender the handler receives for a token. */
  function AppenderOf(token: Token): Appender
  {
    match token
    case Text(text) => Verbatim(text)
    case Escape(_, appender) => appender
  }

  /** The appenders the handler receives for a token sequence, in order. */
  function AppendersOf(tokens: seq<Token>): seq<Appender>
  {
    if tokens == [] then [] else [AppenderOf(tokens[0])] + AppendersOf(tokens[1..])
  }

  /** The bytes of the pattern a token was read from. */
  function Spelling(token: Token): string
  {
    match token
    case Text(text) => text
    case Escape(key, _) => ['%', key]
  }

  /** The pattern text a token sequence was read from, re-serialised. */
  function Unparse(tokens: seq<Token>): string
  {
    if tokens == [] then [] else Spelling(tokens[0]) + Unparse(tokens[1..])
  }

  /** The index of the first `c` in `s`, or -1 when there is none. */
  function IndexByte(s: string, c: char): (i: int)
    ensures -1 <= i < |s|
    ensures i == -1 <==> c !in s
    ensures 0 <= i ==> s[i] == c && c !in s[..i]
  {
    if s == [] then -1
    else if s[0] == c then 0
    else
      var j := IndexByte(s[1..], c);
      if j < 0 then -1
      else
        assert s[..j + 1] == [s[0]] + s[1..][..j];
        j + 1
  }

  /** A `c` with no `c` before it is the one `IndexByte` finds. */
  lemma IndexByteAt(s: string, c: char, k: nat)
    requires k < |s| && s[k] == c && c !in s[..k]
    ensures IndexByte(s, c) == k
  {
  }

  /** The literal run a scan hands over before the `%` at `i`. */
  function Head(p: string, i: nat): seq<Token>
    requires i <= |p|
  {
    if i > 0 then [Text(p[..i])] else []
  }

  /** The literal run handed over before the `%` at `i` is the pattern up to `i`. */
  lemma HeadUnparse(p: string, i: nat)
    requires i <= |p|
    ensures Unparse(Head(p, i)) == p[..i]
  {
    if i > 0 {
      assert Unparse([Text(p[..i])]) == p[..i] + Unparse([]);
    }
  }

  /**
   * The scan of `p` against `table`. A run without `%` up to the end is one
   * literal. A `%` as the last byte fails, and the literal run before it is
   * not handed over. Otherwise the run before `%`, when not empty, is handed
   * over first, then the key after `%` is looked up: a miss fails, a hit is
   * handed over and the scan resumes two bytes past the `%`.
   */
  function Scan(p: string, table: map<char, Appender>): Scanned
    decreases |p|
  {
    if |p| == 0 then Scanned([], Pass)
    else
      var i := IndexByte(p, '%');
      if i < 0 then Scanned([Text(p)], Pass)
      else if i == |p| - 1 then Scanned([], Fail(StrayPercent))
      else
        var key := p[i + 1];
        if key !in table then Scanned(Head(p, i), Fail(UnknownDirective(key)))
        else
          var rest := Scan(p[i + 2..], table);
          Scanned(Head(p, i) + [Escape(key, table[key])] + rest.tokens, rest.outcome)
  }

  /**
   * The shape of every token sequence a scan hands over: literals are not
   * empty and hold no `%`, a literal is never followed by another literal,
   * and each escape carries the appender the table holds for its key.
   */
  ghost predicate Canonical(tokens: seq<Token>, table: map<char, Appender>)
    decreases |tokens|
  {
    tokens == [] ||
    match tokens[0]
    case Text(text) =>
      && text != []
      && '%' !in text
      && (|tokens| == 1 || (tokens[1].Escape? && Canonical(tokens[1..], table)))
    case Escape(key, appender) =>
      && key in table
      && appender == table[key]
      && Canonical(tokens[1..], table)
  }

  /** The rest of the pattern a stray `%` was found in: a `%`-free run and the `%`. */
  ghost predicate StrayTail(rest: string)
  {
    |rest| > 0 && rest[|rest| - 1] == '%' && '%' !in rest[..|rest| - 1]
  }

  /** A pattern without `%` is one literal holding all of it; an empty one is no token at all. */
  lemma ScanVerbatim(p: string, table: map<char, Appender>)
    requires '%' !in p
    ensures Scan(p, table) == Scanned(if p == [] then [] else [Text(p)], Pass)
  {
  }

  /** `Scan` when the first `%` is the last byte. */
  lemma ScanStray(p: string, table: map<char, Appender>)
    requires |p| > 0 && IndexByte(p, '%') == |p| - 1
    ensures Scan(p, table) == Scanned([], Fail(StrayPercent))
  {
  }

  /** `Scan` when the key after the first `%` is unknown. */
  lemma ScanUnknown(p: string, i: nat, table: map<char, Appender>)
    requires i + 1 < |p| && IndexByte(p, '%') == i && p[i + 1] !in table
    ensures Scan(p, table) == Scanned(Head(p, i), Fail(UnknownDirective(p[i + 1])))
  {
  }

  /** `Scan` when the key after the first `%` is known. */
  lemma ScanEscape(p: string, i: nat, table: map<char, Appender>)
    requires i + 1 < |p| && IndexByte(p, '%') == i && p[i + 1] in table
    ensures var rest := Scan(p[i + 2..], table);
      Scan(p, table) == Scanned(Head(p, i) + [Escape(p[i + 1], table[p[i + 1]])] + rest.tokens, rest.outcome)
  {
  }

  /** Re-serialising a concatenation re-serialises each part in turn. */
  lemma {:induction false} UnparseConcat(xs: seq<Token>, ys: seq<Token>)
    ensures Unparse(xs + ys) == Unparse(xs) + Unparse(ys)
  {
    if xs == [] {
      assert xs + ys == ys;
    } else {
      assert (xs + ys)[1..] == xs[1..] + ys;
      UnparseConcat(xs[1..], ys);
    }
  }

  /** The appenders of a concatenation are those of each part in turn. */
  lemma {:induction false} AppendersConcat(xs: seq<Token>, ys: seq<Token>)
    ensures AppendersOf(xs + ys) == AppendersOf(xs) + AppendersOf(ys)
  {
    if xs == [] {
      assert xs + ys == ys;
    } else {
      assert (xs + ys)[1..] == xs[1..] + ys;
      AppendersConcat(xs[1..], ys);
    }
  }

  /** One resolved directive extends canonical tokens and their re-serialisation by one escape. */
  lemma EscapeStep(p: string, i: nat, rest: seq<Token>, table: map<char, Appender>)
    requires i + 1 < |p| && '%' !in p[..i] && p[i + 1] in table
    requires Canonical(rest, table)
    ensures var tokens := Head(p, i) + [Escape(p[i + 1], table[p[i + 1]])] + rest;
      && Canonical(tokens, table)
      && Unparse(tokens) == p[..i] + ['%', p[i + 1]] + Unparse(rest)
  {
    var escape := Escape(p[i + 1], table[p[i + 1]]);
    var head := Head(p, i);
    var tokens := head + [escape] + rest;
    HeadUnparse(p, i);
    assert Canonical([escape] + rest, table) by {
      assert ([escape] + rest)[1..] == rest;
    }
    if i > 0 {
      assert tokens[1..] == [escape] + rest;
    } else {
      assert tokens == [escape] + rest;
    }
    UnparseConcat(head, [escape]);
    UnparseConcat(head + [escape], rest);
    assert Unparse([escape]) == ['%', p[i + 1]] + Unparse([]);
  }

  /**
   * Whatever the outcome, the tokens handed over are canonical and
   * re-serialise to a prefix of the pattern: all of it on success; all but
   * a final `%`-free run and its `%` on a stray `%`; and all but the unknown
   * `%` directive and what follows it on an unknown directive.
   */
  lemma {:induction false} ScanSound(p: string, table: map<char, Appender>)
    ensures var s := Scan(p, table);
      && Canonical(s.tokens, table)
      && Unparse(s.tokens) <= p
      && (s.outcome.Pass? ==> Unparse(s.tokens) == p)
      && (s.outcome == Fail(StrayPercent) ==> StrayTail(p[|Unparse(s.tokens)|..]))
      && (s.outcome.Fail? && s.outcome.error.UnknownDirective? ==>
            var key := s.outcome.error.key;
            key !in table && Unparse(s.tokens) + ['%', key] <= p)
    decreases |p|
  {
    var i := IndexByte(p, '%');
    if i < 0 {
      ScanVerbatim(p, table);
      assert Unparse([Text(p)]) == p + Unparse([]);
    } else if i == |p| - 1 {
      ScanStray(p, table);
      assert p[0..] == p;
    } else if p[i + 1] !in table {
      ScanUnknown(p, i, table);
      HeadUnparse(p, i);
      assert Canonical(Head(p, i), table);
      assert p[..i] + ['%', p[i + 1]] == p[..i + 2];
    } else {
      ScanEscape(p, i, table);
      var rest := Scan(p[i + 2..], table);
      ScanSound(p[i + 2..], table);
      EscapeStep(p, i, rest.tokens, table);
      PrefixAfterEscape(p, i, Unparse(rest.tokens));
    }
  }

  /** Prefix facts about a pattern split at the escape at `i`, stated apart from `Scan`. */
  lemma PrefixAfterEscape(p: string, i: nat, u: string)
    requires i + 1 < |p| && p[i] == '%' && u <= p[i + 2..]
    ensures var done := p[..i] + ['%', p[i + 1]];
      && done + u <= p
      && (u == p[i + 2..] ==> done + u == p)
      && p[|done + u|..] == p[i + 2..][|u|..]
      && (forall key :: u + ['%', key] <= p[i + 2..] ==> done + u + ['%', key] <= p)
  {
    var done := p[..i] + ['%', p[i + 1]];
    assert done == p[..i + 2];
    assert p == done + p[i + 2..];
    forall key | u + ['%', key] <= p[i + 2..]
      ensures done + u + ['%', key] <= p
    {
      assert done + u + ['%', key] == done + (u + ['%', key]);
    }
  }

  /** How a pattern starting with an escape token splits, stated apart from `Scan`. */
  lemma EscapeFirstShape(tokens: seq<Token>, rest: string, tail: seq<Token>)
    requires |tokens| > 0 && tokens[0].Escape?
    ensures var p := Unparse(tokens) + rest;
      && |p| >= 2 && p[0] == '%' && p[..0] == [] && p[1] == tokens[0].key
      && p[2..] == Unparse(tokens[1..]) + rest
      && tokens + tail == [tokens[0]] + tokens[1..] + tail
  {
    var p := Unparse(tokens) + rest;
    assert Unparse(tokens) == ['%', tokens[0].key] + Unparse(tokens[1..]);
    assert p == ['%', tokens[0].key] + (Unparse(tokens[1..]) + rest);
    assert tokens == [tokens[0]] + tokens[1..];
  }

  /** Where a `%` directive sits in a pattern that starts with a `%`-free run. */
  lemma SplitAtEscape(text: string, key: char, more: string)
    ensures var p := text + (['%', key] + more); var i := |text|;
      && i + 1 < |p| && p[i] == '%' && p[..i] == text && p[i + 1] == key && p[i + 2..] == more
  {
    var p := text + (['%', key] + more);
    assert p[..|text|] == text;
    assert p[|text| + 2..] == more;
  }

  /** How a pattern starting with a literal token and an escape splits, stated apart from `Scan`. */
  lemma TextFirstShape(tokens: seq<Token>, rest: string, tail: seq<Token>)
    requires |tokens| > 1 && tokens[0].Text? && tokens[1].Escape?
    ensures Unparse(tokens) + rest == tokens[0].text + (['%', tokens[1].key] + (Unparse(tokens[2..]) + rest))
    ensures tokens + tail == [Text(tokens[0].text)] + [tokens[1]] + (tokens[2..] + tail)
  {
    UnparseTwo(tokens);
    Regroup(tokens[0].text, ['%', tokens[1].key], Unparse(tokens[2..]), rest);
    TokensTwo(tokens, tail);
  }

  /** The re-serialisation of a literal followed by an escape. */
  lemma UnparseTwo(tokens: seq<Token>)
    requires |tokens| > 1 && tokens[0].Text? && tokens[1].Escape?
    ensures Unparse(tokens) == tokens[0].text + (['%', tokens[1].key] + Unparse(tokens[2..]))
  {
    assert tokens[1..][1..] == tokens[2..];
  }

  /** Regrouping a four-part concatenation of strings. */
  lemma Regroup(a: string, b: string, c: string, d: string)
    ensures a + (b + c) + d == a + (b + (c + d))
  {
  }

  /** A token sequence split after its first two tokens. */
  lemma TokensTwo(tokens: seq<Token>, tail: seq<Token>)
    requires |tokens| > 1 && tokens[0].Text?
    ensures tokens + tail == [Text(tokens[0].text)] + [tokens[1]] + (tokens[2..] + tail)
  {
    assert tokens == [tokens[0]] + [tokens[1]] + tokens[2..];
  }

  /** `Scan` of a pattern that starts with a known directive, given the scan of what follows it. */
  lemma EscapeCore(p: string, e: Token, more: seq<Token>, tail: Scanned, table: map<char, Appender>)
    requires |p| >= 2 && p[1] in table && IndexByte(p, '%') == 0
    requires e == Escape(p[1], table[p[1]])
    requires Scan(p[2..], table) == Scanned(more + tail.tokens, tail.outcome)
    ensures Scan(p, table) == Scanned([e] + more + tail.tokens, tail.outcome)
  {
    ScanEscape(p, 0, table);
    assert Head(p, 0) == [];
    assert [e] + more + tail.tokens == [] + [e] + (more + tail.tokens);
  }

  /** One escape in front of a pattern's rest is scanned first, then the rest. */
  lemma EscapeFirst(tokens: seq<Token>, rest: string, table: map<char, Appender>)
    requires |tokens| > 0 && tokens[0].Escape?
    requires tokens[0].key in table && tokens[0].appender == table[tokens[0].key]
    requires Scan(Unparse(tokens[1..]) + rest, table)
          == Scanned(tokens[1..] + Scan(rest, table).tokens, Scan(rest, table).outcome)
    ensures Scan(Unparse(tokens) + rest, table) == Scanned(tokens + Scan(rest, table).tokens, Scan(rest, table).outcome)
  {
    var p := Unparse(tokens) + rest;
    var tail := Scan(rest, table);
    EscapeFirstShape(tokens, rest, tail.tokens);
    IndexByteAt(p, '%', 0);
    EscapeCore(p, tokens[0], tokens[1..], tail, table);
  }

  /** `Scan` of a pattern that starts with a literal run and a known directive, given the scan of what follows them. */
  lemma TextCore(p: string, i: nat, text: string, e: Token, more: seq<Token>, tail: Scanned, table: map<char, Appender>)
    requires 0 < i && i + 1 < |p| && p[i + 1] in table && IndexByte(p, '%') == i
    requires text == p[..i] && e == Escape(p[i + 1], table[p[i + 1]])
    requires Scan(p[i + 2..], table) == Scanned(more + tail.tokens, tail.outcome)
    ensures Scan(p, table) == Scanned([Text(text)] + [e] + (more + tail.tokens), tail.outcome)
  {
    ScanEscape(p, i, table);
  }

  /** A literal and the escape after it in front of a pattern's rest are scanned first, then the rest. */
  lemma TextFirst(tokens: seq<Token>, rest: string, table: map<char, Appender>)
    requires |tokens| > 1 && tokens[0].Text? && tokens[1].Escape?
    requires tokens[0].text != [] && '%' !in tokens[0].text
    requires tokens[1].key in table && tokens[1].appender == table[tokens[1].key]
    requires Scan(Unparse(tokens[2..]) + rest, table)
          == Scanned(tokens[2..] + Scan(rest, table).tokens, Scan(rest, table).outcome)
    ensures Scan(Unparse(tokens) + rest, table) == Scanned(tokens + Scan(rest, table).tokens, Scan(rest, table).outcome)
  {
    var text := tokens[0].text;
    var more := Unparse(tokens[2..]) + rest;
    var p := Unparse(tokens) + rest;
    var tail := Scan(rest, table);
    TextFirstShape(tokens, rest, tail.tokens);
    SplitAtEscape(text, tokens[1].key, more);
    IndexByteAt(p, '%', |text|);
    TextCore(p, |text|, text, tokens[1], tokens[2..], tail, table);
  }

  /**
   * Re-scanning re-serialised canonical tokens gives those tokens back, and
   * the scan then carries on through whatever follows, unless the last of
   * them is a literal (which would absorb a following literal run).
   */
  lemma {:induction false} ScanAppend(tokens: seq<Token>, rest: string, table: map<char, Appender>)
    requires Canonical(tokens, table)
    requires rest == [] || tokens == [] || tokens[|tokens| - 1].Escape?
    ensures Scan(Unparse(tokens) + rest, table) == Scanned(tokens + Scan(rest, table).tokens, Scan(rest, table).outcome)
    decreases |tokens|
  {
    if tokens == [] {
      assert Unparse(tokens) + rest == rest;
      assert tokens + Scan(rest, table).tokens == Scan(rest, table).tokens;
    } else if tokens[0].Escape? {
      ScanAppend(tokens[1..], rest, table);
      EscapeFirst(tokens, rest, table);
    } else if |tokens| == 1 {
      var text := tokens[0].text;
      assert tokens[1..] == [];
      assert Unparse(tokens) + rest == text + Unparse([]) == text;
      ScanVerbatim(text, table);
      ScanVerbatim(rest, table);
      assert tokens + [] == tokens;
    } else {
      assert tokens[1..][1..] == tokens[2..];
      ScanAppend(tokens[2..], rest, table);
      TextFirst(tokens, rest, table);
    }
  }

  /** A scan succeeds with exactly the canonical tokens that re-serialise to the pattern. */
  lemma ScanPassIff(p: string, tokens: seq<Token>, table: map<char, Appender>)
    ensures Scan(p, table) == Scanned(tokens, Pass) <==> Canonical(tokens, table) && Unparse(tokens) == p
  {
    ScanSound(p, table);
    if Canonical(tokens, table) && Unparse(tokens) == p {
      ScanAppend(tokens, [], table);
      ScanVerbatim([], table);
      assert Unparse(tokens) + [] == p;
      assert tokens + [] == tokens;
    }
  }

  /** After canonical tokens ending in an escape, a `%`-free run and a final `%` fail, handing over nothing more. */
  lemma ScanStrayPercent(tokens: seq<Token>, run: string, table: map<char, Appender>)
    requires Canonical(tokens, table)
    requires tokens == [] || tokens[|tokens| - 1].Escape?
    requires '%' !in run
    ensures Scan(Unparse(tokens) + run + ['%'], table) == Scanned(tokens, Fail(StrayPercent))
  {
    var rest := run + ['%'];
    StrayRun(run, table);
    ScanAppend(tokens, rest, table);
    assert Unparse(tokens) + run + ['%'] == Unparse(tokens) + rest;
    assert tokens + [] == tokens;
  }

  /** A `%`-free run and a final `%` fail at once, handing over nothing. */
  lemma StrayRun(run: string, table: map<char, Appender>)
    requires '%' !in run
    ensures Scan(run + ['%'], table) == Scanned([], Fail(StrayPercent))
  {
    var rest := run + ['%'];
    assert rest[..|run|] == run;
    IndexByteAt(rest, '%', |run|);
    ScanStray(rest, table);
  }

  /**
   * After canonical tokens ending in an escape, an unknown directive fails:
   * the run before it is still handed over, nothing after it is.
   */
  lemma ScanUnknownDirective(tokens: seq<Token>, run: string, key: char, rest: string, table: map<char, Appender>)
    requires Canonical(tokens, table)
    requires tokens == [] || tokens[|tokens| - 1].Escape?
    requires '%' !in run
    requires key !in table
    ensures Scan(Unparse(tokens) + run + ['%', key] + rest, table)
         == Scanned(tokens + (if run == [] then [] else [Text(run)]), Fail(UnknownDirective(key)))
  {
    var after := run + ['%', key] + rest;
    UnknownShape(Unparse(tokens), run, key, rest);
    ScanAppend(tokens, after, table);
    IndexByteAt(after, '%', |run|);
    ScanUnknown(after, |run|, table);
    assert Scan(after, table) == Scanned(if run == [] then [] else [Text(run)], Fail(UnknownDirective(key)));
  }

  /** How a pattern with a `%`-free run and a directive after a prefix splits, stated apart from `Scan`. */
  lemma UnknownShape(prefix: string, run: string, key: char, rest: string)
    ensures var after := run + ['%', key] + rest;
      && prefix + run + ['%', key] + rest == prefix + after
      && after[..|run|] == run && after[|run|] == '%' && after[|run| + 1] == key
      && Head(after, |run|) == if run == [] then [] else [Text(run)]
  {
    var after := run + ['%', key] + rest;
    assert after[..|run|] == run;
  }

  /** Every literal in a canonical token sequence is a non-empty, `%`-free run. */
  lemma {:induction false} CanonicalLiterals(tokens: seq<Token>, table: map<char, Appender>)
    requires Canonical(tokens, table)
    ensures forall k :: 0 <= k < |tokens| && tokens[k].Text? ==> tokens[k].text != [] && '%' !in tokens[k].text
    decreases |tokens|
  {
    if |tokens| > 1 {
      CanonicalLiterals(tokens[1..], table);
      forall k | 1 <= k < |tokens| && tokens[k].Text?
        ensures tokens[k].text != [] && '%' !in tokens[k].text
      {
        assert tokens[k] == tokens[1..][k - 1];
      }
    }
  }

  /** No scan, whatever its outcome, hands over an empty literal or one holding a `%`. */
  lemma NoEmptyLiteral(p: string, table: map<char, Appender>)
    ensures var tokens := Scan(p, table).tokens;
      forall k :: 0 <= k < |tokens| && tokens[k].Text? ==> tokens[k].text != [] && '%' !in tokens[k].text
  {
    ScanSound(p, table);
    CanonicalLiterals(Scan(p, table).tokens, table);
  }

  /** Which handler a compilation feeds, Go's two implementations of `compileHandler`. */
  datatype HandlerKind =
    | ListBuilder         // appends each appender to a list
    | Executor(t: Time)   // renders each appender into a buffer at once

  /**
   * A compilation handler. `handled` is every appender received so far; the
   * list builder's `list` is exactly that, and the executor's `dst` is their
   * rendering.
   */
  class CompileHandler {
    const kind: HandlerKind
    var list: seq<Appender>
    var dst: string
    ghost var handled: seq<Appender>

    /** The handler's state accounts for every appender it has received. */
    ghost predicate Valid()
      reads this
    {
      match kind
      case ListBuilder => list == handled
      case Executor(t) => dst == RenderAll(handled, t)
    }

    /** A list builder with an empty list. */
    constructor ListBuilder()
      ensures Valid() && kind == HandlerKind.ListBuilder && handled == [] && list == []
    {
      kind := HandlerKind.ListBuilder;
      list, dst := [], [];
      handled := [];
    }

    /** An executor rendering `t` into an empty buffer. */
    constructor Executor(t: Time)
      ensures Valid() && kind == HandlerKind.Executor(t) && handled == [] && dst == []
    {
      kind := HandlerKind.Executor(t);
      list, dst := [], [];
      handled := [];
    }

    /** Receives the next appender of the compilation. */
    method Handle(a: Appender)
      requires Valid()
      modifies this
      ensures Valid()
      ensures handled == old(handled) + [a]
      ensures kind.ListBuilder? ==> list == old(list) + [a] && dst == old(dst)
      ensures kind.Executor? ==> dst == Append(a, old(dst), kind.t) && list == old(list)
    {
      handled := handled + [a];
      match kind
      case ListBuilder =>
        list := list + [a];
      case Executor(t) =>
        RenderAllSnoc(old(handled), a, t);
        dst := Append(a, dst, t);
    }
  }

  /**
   * Compiles `p` against `ds`, feeding the handler exactly the appenders of
   * the tokens `Scan` hands over, and failing exactly as `Scan` does.
   */
  method Compile(handler: CompileHandler, p: string, ds: SpecificationSet) returns (err: Outcome<CompileError>)
    requires handler.Valid()
    modifies handler
    ensures handler.Valid()
    ensures handler.handled == old(handler.handled) + AppendersOf(Scan(p, ds.store).tokens)
    ensures err == Scan(p, ds.store).outcome
  {
    ghost var table := ds.store;
    ghost var start := handler.handled;
    var rest := p;
    ghost var done: seq<Token> := [];
    while |rest| > 0
      invariant handler.Valid()
      invariant handler.handled == start + AppendersOf(done)
      invariant Scan(p, table) == Then(done, Scan(rest, table))
      decreases |rest|
    {
      ghost var before := rest;
      ghost var emitted := handler.handled;
      var i := IndexByte(rest, '%');
      if i < 0 {
        handler.Handle(Verbatim(rest));
        rest := rest[|rest|..];
        ScanLiteralRound(p, table, done, before);
        Account(start, done, [Text(before)], emitted, handler.handled);
        done := done + [Text(before)];
        continue;
      }
      if i == |rest| - 1 {
        ScanStray(before, table);
        ScanLastRound(p, table, done, before, [], Fail(StrayPercent));
        Account(start, done, [], emitted, handler.handled);
        return Fail(StrayPercent);
      }
      if i > 0 {
        handler.Handle(Verbatim(rest[..i]));
        rest := rest[i..];
      }
      ghost var head := Head(before, i);
      ghost var mid := handler.handled;
      SkipRound(before, i, rest, emitted, mid);
      var specification := ds.Lookup(rest[1]);
      if specification.Failure? {
        ScanUnknown(before, i, table);
        ScanLastRound(p, table, done, before, head, Fail(UnknownDirective(before[i + 1])));
        Account(start, done, head, emitted, mid);
        return Fail(UnknownDirective(rest[1]));
      }
      handler.Handle(specification.value);
      rest := rest[2..];
      ghost var escape := Escape(before[i + 1], table[before[i + 1]]);
      ScanEscapeRound(p, table, done, before, i, rest);
      EscapeAccount(start, done, head, escape, emitted, mid, handler.handled);
      done := done + (head + [escape]);
    }
    ScanLastRound(p, table, done, rest, [], Pass);
    Account(start, done, [], handler.handled, handler.handled);
    return Pass;
  }

  /** The scan of a whole pattern, given what was handed over before `rest` and the scan of `rest`. */
  function Then(done: seq<Token>, rest: Scanned): Scanned
  {
    Scanned(done + rest.tokens, rest.outcome)
  }

  /** The loop's account of the scan after a final literal run. */
  lemma ScanLiteralRound(p: string, table: map<char, Appender>, done: seq<Token>, before: string)
    requires before != [] && '%' !in before
    requires Scan(p, table) == Then(done, Scan(before, table))
    ensures Scan(p, table) == Then(done + [Text(before)], Scan([], table))
  {
    ScanVerbatim(before, table);
    assert done + [Text(before)] + [] == done + [Text(before)];
  }

  /** The loop's account of the scan when what is left scans to `step` and `outcome`. */
  lemma ScanLastRound(p: string, table: map<char, Appender>, done: seq<Token>, before: string,
                      step: seq<Token>, outcome: Outcome<CompileError>)
    requires Scan(p, table) == Then(done, Scan(before, table))
    requires Scan(before, table) == Scanned(step, outcome)
    ensures Scan(p, table) == Scanned(done + step, outcome)
  {
  }

  /** The loop's account of the scan after a resolved directive at `i`. */
  lemma ScanEscapeRound(p: string, table: map<char, Appender>, done: seq<Token>, before: string, i: nat, after: string)
    requires i + 1 < |before| && IndexByte(before, '%') == i && before[i + 1] in table
    requires after == before[i + 2..]
    requires Scan(p, table) == Then(done, Scan(before, table))
    ensures Scan(p, table)
         == Then(done + (Head(before, i) + [Escape(before[i + 1], table[before[i + 1]])]), Scan(after, table))
  {
    var step := Head(before, i) + [Escape(before[i + 1], table[before[i + 1]])];
    ScanEscape(before, i, table);
    assert done + (step + Scan(after, table).tokens) == done + step + Scan(after, table).tokens;
  }

  /** The appenders handed over, after one more round's tokens. */
  lemma Account(start: seq<Appender>, done: seq<Token>, step: seq<Token>, emitted: seq<Appender>, handled: seq<Appender>)
    requires emitted == start + AppendersOf(done)
    requires handled == emitted + AppendersOf(step)
    ensures handled == start + AppendersOf(done + step)
  {
    AppendersConcat(done, step);
    Assoc(start, AppendersOf(done), AppendersOf(step));
  }

  /** Regrouping a three-part concatenation. */
  lemma Assoc<T>(a: seq<T>, b: seq<T>, c: seq<T>)
    ensures a + b + c == a + (b + c)
  {
  }

  /** The appenders handed over, after a literal run and the escape following it. */
  lemma EscapeAccount(start: seq<Appender>, done: seq<Token>, head: seq<Token>, escape: Token,
                      emitted: seq<Appender>, mid: seq<Appender>, handled: seq<Appender>)
    requires escape.Escape?
    requires emitted == start + AppendersOf(done)
    requires mid == emitted + AppendersOf(head)
    requires handled == mid + [escape.appender]
    ensures handled == start + AppendersOf(done + (head + [escape]))
  {
    AppendersConcat(head, [escape]);
    assert AppendersOf([escape]) == [escape.appender] + AppendersOf([]);
    Account(start, done, head + [escape], emitted, handled);
  }

  /** The appenders handed over for the literal run before the `%` at `i`, and what is left after it. */
  lemma SkipRound(before: string, i: nat, rest: string, emitted: seq<Appender>, mid: seq<Appender>)
    requires i + 1 < |before|
    requires rest == before[i..]
    requires mid == if i > 0 then emitted + [Verbatim(before[..i])] else emitted
    ensures mid == emitted + AppendersOf(Head(before, i))
    ensures |rest| >= 2 && rest[1] == before[i + 1] && rest[2..] == before[i + 2..]
  {
    if i > 0 {
      assert AppendersOf([Text(before[..i])]) == [Verbatim(before[..i])] + AppendersOf([]);
    } else {
      assert emitted + [] == emitted;
    }
  }
}

