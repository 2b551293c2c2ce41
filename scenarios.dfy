/**
 * Properties of whole patterns: literal passthrough, and the behaviour of
 * a few fixed patterns against any table holding the entries they use.
 */
module Scenarios {
  import opened Wrappers
  import opened Appenders
  import opened Compiler
  import opened Strftime

  /** A pattern without `%` compiles, and renders to itself for every timestamp. */
  lemma LiteralPassthrough(p: string, table: map<char, Appender>, t: Time)
    requires '%' !in p
    ensures Scan(p, table).outcome == Pass
    ensures Rendered(p, table, t) == p
  {
    ScanVerbatim(p, table);
    if p != [] {
      assert AppendersOf([Text(p)]) == [Verbatim(p)] + AppendersOf([]);
      assert RenderAll([Verbatim(p)], t) == p + RenderAll([], t);
    }
  }

  /** `%` alone is a stray `%`. */
  lemma StrayAlone(table: map<char, Appender>)
    ensures Scan("%", table) == Scanned([], Fail(StrayPercent))
  {
    ScanStrayPercent([], [], table);
    assert Unparse([]) + [] + ['%'] == "%";
  }

  /** `%Q` fails on `Q` when no entry exists for it, handing over nothing. */
  lemma UnknownAlone(table: map<char, Appender>)
    requires 'Q' !in table
    ensures Scan("%Q", table) == Scanned([], Fail(UnknownDirective('Q')))
  {
    ScanUnknownDirective([], [], 'Q', [], table);
    assert Unparse([]) + [] + ['%', 'Q'] + [] == "%Q";
  }

  /** With `%%` registered as a verbatim `%`, `100%%` renders `100%`. */
  lemma PercentEscape(table: map<char, Appender>, t: Time)
    requires '%' in table && table['%'] == Verbatim("%")
    ensures Scan("100%%", table) == Scanned([Text("100"), Escape('%', Verbatim("%"))], Pass)
    ensures Rendered("100%%", table, t) == "100%"
  {
    var lit, pct := Text("100"), Escape('%', Verbatim("%"));
    PercentTokens(table, lit, pct);
    ScanPassIff("100%%", [lit] + [pct], table);
    PercentRender(lit, pct, t);
  }

  /** The tokens of `100%%` render `100%`. */
  lemma PercentRender(lit: Token, pct: Token, t: Time)
    requires lit == Text("100") && pct == Escape('%', Verbatim("%"))
    ensures RenderAll(AppendersOf([lit] + [pct]), t) == "100%"
  {
    Cons(lit, [pct], t);
    Cons(pct, [], t);
    assert [pct] + [] == [pct];
    assert RenderAll(AppendersOf([]), t) == [];
    assert "100" + ("%" + []) == "100%";
  }

  /** The tokens of `100%%` against a table holding `%`. */
  lemma PercentTokens(table: map<char, Appender>, lit: Token, pct: Token)
    requires '%' in table && table['%'] == Verbatim("%")
    requires lit == Text("100") && pct == Escape('%', Verbatim("%"))
    ensures [lit] + [pct] == [Text("100"), Escape('%', Verbatim("%"))]
    ensures Canonical([lit] + [pct], table) && Unparse([lit] + [pct]) == "100%%"
  {
    assert Canonical([pct], table) by { assert [pct][1..] == []; }
    assert ([lit] + [pct])[1..] == [pct];
    UnparseConcat([lit], [pct]);
    assert forall tok: Token :: Unparse([tok]) == Spelling(tok) + Unparse([]);
  }

  /** `%Y-%m-%d` renders the year, month and day entries with a `-` between each. */
  lemma DatePattern(table: map<char, Appender>, t: Time)
    requires 'Y' in table && 'm' in table && 'd' in table
    ensures Scan("%Y-%m-%d", table).outcome == Pass
    ensures Rendered("%Y-%m-%d", table, t)
         == Render(table['Y'], t) + "-" + Render(table['m'], t) + "-" + Render(table['d'], t)
  {
    var y, m, d := Escape('Y', table['Y']), Escape('m', table['m']), Escape('d', table['d']);
    var dash := Text("-");
    var t3 := [dash] + [d];
    var t2 := [m] + t3;
    var t1 := [dash] + t2;
    var tokens := [y] + t1;
    DateTokens(table, y, m, d, dash, t3, t2, t1, tokens);
    ScanPassIff("%Y-%m-%d", tokens, table);
    DateRender(y, m, d, dash, t3, t2, t1, tokens, t);
  }

  /** The tokens of `%Y-%m-%d` render each entry in turn with a `-` between each. */
  lemma DateRender(y: Token, m: Token, d: Token, dash: Token,
                   t3: seq<Token>, t2: seq<Token>, t1: seq<Token>, tokens: seq<Token>, t: Time)
    requires y.Escape? && m.Escape? && d.Escape? && dash == Text("-")
    requires t3 == [dash] + [d] && t2 == [m] + t3 && t1 == [dash] + t2 && tokens == [y] + t1
    ensures RenderAll(AppendersOf(tokens), t)
         == Render(y.appender, t) + "-" + Render(m.appender, t) + "-" + Render(d.appender, t)
  {
    Cons(y, t1, t);
    Cons(dash, t2, t);
    Cons(m, t3, t);
    Cons(dash, [d], t);
    Cons(d, [], t);
    assert [d] + [] == [d];
    var ry, rm, rd := Render(y.appender, t), Render(m.appender, t), Render(d.appender, t);
    assert RenderAll(AppendersOf(tokens), t) == ry + ("-" + (rm + ("-" + (rd + RenderAll(AppendersOf([]), t)))));
    assert AppendersOf([]) == [] && RenderAll([], t) == [];
    assert ry + ("-" + (rm + ("-" + (rd + [])))) == ry + "-" + rm + "-" + rd;
  }

  /** The tokens of `%Y-%m-%d`, re-serialised, are the pattern, and they are canonical. */
  lemma DateTokens(table: map<char, Appender>, y: Token, m: Token, d: Token, dash: Token,
                   t3: seq<Token>, t2: seq<Token>, t1: seq<Token>, tokens: seq<Token>)
    requires 'Y' in table && 'm' in table && 'd' in table
    requires y == Escape('Y', table['Y']) && m == Escape('m', table['m']) && d == Escape('d', table['d'])
    requires dash == Text("-")
    requires t3 == [dash] + [d] && t2 == [m] + t3 && t1 == [dash] + t2 && tokens == [y] + t1
    ensures Canonical(tokens, table) && Unparse(tokens) == "%Y-%m-%d"
  {
    assert Canonical([d], table) by { assert [d][1..] == []; }
    assert Canonical(t3, table) by { assert t3[1..] == [d]; }
    assert Canonical(t2, table) by { assert t2[1..] == t3; }
    assert Canonical(t1, table) by { assert t1[1..] == t2; }
    assert Canonical(tokens, table) by { assert tokens[1..] == t1; }
    UnparseConcat([y], t1);
    UnparseConcat([dash], t2);
    UnparseConcat([m], t3);
    UnparseConcat([dash], [d]);
    assert forall tok: Token :: Unparse([tok]) == Spelling(tok) + Unparse([]);
  }

  /** The appenders and the rendering of one token in front of others. */
  lemma Cons(token: Token, rest: seq<Token>, t: Time)
    ensures AppendersOf([token] + rest) == [AppenderOf(token)] + AppendersOf(rest)
    ensures RenderAll([AppenderOf(token)] + AppendersOf(rest), t) == Render(AppenderOf(token), t) + RenderAll(AppendersOf(rest), t)
  {
    AppendersConcat([token], rest);
    assert AppendersOf([token]) == [AppenderOf(token)] + AppendersOf([]);
    assert ([AppenderOf(token)] + AppendersOf(rest))[1..] == AppendersOf(rest);
  }
}
