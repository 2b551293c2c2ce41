# strftime pattern compiler, modelled in Dafny

This project models the core of the Go package `strftime` (`strftime.go`): the
compiler that splits a strftime pattern into literal runs and `%` directives,
the two handlers it feeds, the resolution of options into the directive table,
and the entry points `Format`, `New`, `Pattern`, `format` and `FormatString`.

Modules, one file each:

- `Wrappers` (`wrappers.dfy`): `Result` and `Outcome`.
- `Appenders` (`appenders.dfy`): the abstract timestamp `Time`, the `Appender`
  datatype (`Verbatim` text or a `Derived` rule of the timestamp), and
  `RenderAll`, the text a sequence of appenders appends, in order.
- `SpecificationSets` (`specification_sets.dfy`): the class `SpecificationSet`
  (a `mutable` flag and a `store` from directive byte to appender, with
  `Lookup` and `Set`), the `Option` datatype, and `GetSpecificationSetFor`.
  Its result is specified by `Base`, `Extras` and `Overlay`.
- `Compiler` (`compiler.dfy`): `Scan` is a recursive function that states which
  tokens a compilation hands over and how it ends. `Compile` is the loop of
  `compile`, proved to follow `Scan`. The class `CompileHandler` stands for
  Go's two `compileHandler` implementations: the list builder and the executor.
- `Strftime` (`strftime.dfy`): the `Strftime` value with `Pattern`,
  `FormatInto` (Go's `format`) and `FormatString`; the methods `Format` and
  `New`; and `FormatAgreesWithNew`, which shows that the two entry points
  agree.
- `Scenarios` (`scenarios.dfy`): literal passthrough and a few fixed
  patterns: `%`, `%Q`, `100%%` and `%Y-%m-%d`.

How a pattern is read: the re-serialisation `Unparse` writes each literal token
back as its text and each directive as `%` and its key. `ScanPassIff` proves that
a scan succeeds with exactly those canonical tokens that re-serialise to the
pattern. In a canonical token sequence:

- literals are non-empty and hold no `%`;
- no two literals are adjacent;
- each directive carries the table's appender.

Two behaviours of the code are kept as written:

- A `%` as the last byte is detected before the literal run in front of it is
  handed over. That run therefore never reaches the handler.
- With extra directives and an immutable base set, the extras are registered
  on a fresh copy of the default set (`NewSpecificationSet()`), not on a copy
  of that base.

## Model

| member | source | states |
|---|---|---|
| `Appenders.Append` | strftime.go:31-33 | an appender keeps what the buffer held as a prefix, and a verbatim appender adds exactly its text |
| `Appenders.RenderAll` | strftime.go:163-168 | the text a sequence of appenders appends to an empty buffer, each in turn; `RenderAllSnoc` and `FormatInto` are stated against it |
| `Appenders.RenderAllSnoc` | strftime.go:163-168 | rendering one more appender appends its text after the text of the ones before |
| `SpecificationSets.SpecificationSet.Lookup` | strftime.go:57-60 | the lookup succeeds exactly when the byte has an entry, returns that entry, and otherwise fails naming the byte |
| `SpecificationSets.SpecificationSet.Set` | strftime.go:86-88 | a mutable set registers the appender for the byte; an immutable set refuses and stays as it was |
| `SpecificationSets.NewSpecificationSet` | strftime.go:83-85 | a fresh, mutable set holding every entry of the default set |
| `SpecificationSets.Base` | strftime.go:69-74 | the set the options select before extras: the last set option's set, or the default set when there is none. It is always the default set or one of the options' sets |
| `SpecificationSets.Extras` | strftime.go:70-78 | every extra comes from a single-directive option, and there are no more extras than options |
| `SpecificationSets.ExtrasComplete` | strftime.go:75-76 | every single-directive option gives an extra |
| `SpecificationSets.ExtrasConcat` | strftime.go:71-78 | the extras keep the options' order: those of two consecutive option lists are the first list's followed by the second's |
| `SpecificationSets.ExtrasAt` | strftime.go:71-78 | a single-directive option is the extra at the position counting the extras before it, and no later extra names its byte unless a later option does |
| `SpecificationSets.ResolvedLastWins` | strftime.go:70-89 | a single-directive option that no later single-directive option for the same byte overrides gives that byte's entry in the resolved table, whatever the base |
| `SpecificationSets.BaseDefault` | strftime.go:69-78 | without a set option the base is the default set |
| `SpecificationSets.BaseLastWins` | strftime.go:69-78 | the last set option gives the base, whatever single-directive options follow it |
| `SpecificationSets.GetSpecificationSetFor` | strftime.go:68-91 | without extras, the base is returned untouched. With extras and a mutable base, the base itself is returned, updated in place with the extras in order. With extras and an immutable base, a fresh mutable copy of the default is returned and the base is not written. The default set never changes, and resolving the options again selects the same table |
| `SpecificationSets.Overlay` | strftime.go:86-88 | the table after registering each extra in order on a store, a later extra for the same byte replacing an earlier one; the `Overlay` lemmas below state its properties |
| `SpecificationSets.OverlayUntouched` | strftime.go:86-88 | a byte no extra names keeps the entry, or the absence of one, it had in the base |
| `SpecificationSets.OverlayLastWins` | strftime.go:86-88 | of several extras for one byte, the last one is the entry |
| `SpecificationSets.OverlayKeys` | strftime.go:86-88 | the table's bytes are the base's bytes plus the ones the extras name |
| `SpecificationSets.OverlayShadows` | strftime.go:86-88 | for a byte the extras name, the base beneath does not matter |
| `SpecificationSets.OverlayIdempotent` | strftime.go:86-88 | registering the same extras twice gives the same table as once |
| `Compiler.IndexByte` | strftime.go:37 | the index of the first `%` in what is left, or -1 exactly when there is none |
| `Compiler.Scan` | strftime.go:35-66 | the tokens a compilation hands over, in order, and how it ends: a pass, a stray `%`, or an unknown directive naming its byte. `Compile` is proved to follow it, and `ScanPassIff` characterises it |
| `Compiler.ScanVerbatim` | strftime.go:36-43 | a pattern without `%` compiles to one literal holding all of it, and an empty pattern to nothing, both successfully |
| `Compiler.ScanSound` | strftime.go:35-66 | whatever the outcome, the tokens handed over are canonical and re-serialise to a prefix of the pattern. On success that prefix is the whole pattern. A stray `%` leaves only a `%`-free run and the `%`. An unknown directive leaves that `%` directive and what follows |
| `Compiler.ScanAppend` | strftime.go:35-66 | re-scanning re-serialised canonical tokens gives those tokens back, then the scan of what follows |
| `Compiler.ScanPassIff` | strftime.go:35-66 | a compilation succeeds with a token sequence exactly when those tokens are canonical and re-serialise to the pattern (round trip, both directions) |
| `Compiler.ScanStrayPercent` | strftime.go:45-46 | after any successfully read prefix, a `%`-free run ending in `%` fails with a stray `%`, and the run is not handed over |
| `Compiler.ScanUnknownDirective` | strftime.go:57-60 | after any successfully read prefix, an unknown directive fails naming its byte. The run before it is handed over, and nothing after it is |
| `Compiler.CanonicalLiterals` | strftime.go:38-39 | every literal in a canonical token sequence is non-empty and holds no `%` |
| `Compiler.NoEmptyLiteral` | strftime.go:38-39 | no compilation, whatever its outcome, hands over an empty literal or one holding a `%` |
| `Compiler.CompileHandler.ListBuilder` | strftime.go:127-128 | a list builder that has received nothing, with an empty list |
| `Compiler.CompileHandler.Executor` | strftime.go:104-107 | an executor for the timestamp that has received nothing, with an empty buffer |
| `Compiler.CompileHandler.Handle` | strftime.go:20-33 | the handler receives one more appender. The list builder appends it to its list and leaves the buffer alone; the executor appends its rendering to the buffer and leaves the list alone |
| `Compiler.Compile` | strftime.go:35-66 | the handler receives exactly the appenders of the tokens the scan hands over, in order, and the compilation ends as the scan does |
| `Strftime.Strftime.Pattern` | strftime.go:140-143 | the pattern the object was built from; `New` ensures it is `p` |
| `Strftime.Strftime.FormatInto` | strftime.go:163-168 | the buffer keeps what it held, followed by the rendering of every compiled appender in order |
| `Strftime.Strftime.FormatString` | strftime.go:172-183 | the text is the rendering of every compiled appender in order |
| `Strftime.Format` | strftime.go:100-113 | on a compilation error the text is empty and the error is the scan's. Otherwise the text renders every appender the pattern compiles to against the selected table. An immutable base set and the default set are left unchanged; without extras the base is unchanged; a mutable base with extras holds the extras registered in order |
| `Strftime.New` | strftime.go:123-143 | fails exactly when the compilation fails, with the same error. Otherwise the object's `Pattern()` is `p` and it holds every appender the pattern compiles to. The base set changes as it does under `Format` |
| `Strftime.FormatAgreesWithNew` | strftime.go:100-138 | `Format`, then `New` and `FormatString`, fail together with the same error, and otherwise give the same text |
| `Scenarios.LiteralPassthrough` | strftime.go:38-43 | a pattern without `%` compiles and renders to itself for every timestamp |
| `Scenarios.StrayAlone` | strftime.go:45-46 | the pattern `%` fails with a stray `%` |
| `Scenarios.UnknownAlone` | strftime.go:57-60 | the pattern `%Q` fails naming `Q` when `Q` has no entry |
| `Scenarios.PercentEscape` | strftime.go:52-63 | with `%` registered as a verbatim `%`, `100%%` compiles to the literal `100` and that directive, and renders `100%` |
| `Scenarios.DatePattern` | strftime.go:35-66 | `%Y-%m-%d` renders the year, month and day entries with a `-` between each |

## Left out

- `Compiler.CompileHandler.Handle`: the list builder appends each appender as it
  comes. Go's `combiningAppend` may merge adjacent verbatim appenders. That
  type is not part of this model, so the list `New` returns holds the unmerged
  appenders. Merging changes the list, not what it renders.
- `SpecificationSets.SpecificationSet.Lookup`, `Set`, `NewSpecificationSet`:
  their bodies are not part of this model. They are modelled from their
  documented behaviour. Set's refusal is a boolean that, as in Go, nobody
  checks.
- The process-wide default set is passed explicitly as `defaultSet` and is
  required to be immutable. Its built-in entries are not modelled.
- Only the package's own set type is modelled. A caller's own implementation
  of the `SpecificationSet` interface is not; Go would call `Set` on it even
  when it refuses writes.
- Options are a datatype with the two kinds the resolution understands. The
  dynamic `Name()`/`Value()` type assertions, and options of other kinds
  (which Go skips), are not modelled.
- `Time` is abstract, and the concrete directive renderers (names, padding,
  time zones) are `Derived` rules whose definitions are not modelled.
  Appenders are assumed only to append to the buffer.
- `Strftime.Format` writing to an `io.Writer` (strftime.go:147-161) is I/O, as
  is its error pass-through.
- The buffer-capacity heuristics (64 bytes, `len(p)+10`) affect capacity only,
  never content.
- Error messages and `errors.Wrap` layering: errors are the kinds
  `StrayPercent` and `UnknownDirective(key)`.
- Patterns are sequences of `char` standing for Go's bytes, but a Dafny `char`
  can hold values above 0xFF. The model therefore also accepts patterns no Go
  byte string can express, and `UnknownDirective(key)` can name a value that is
  not a byte. As in Go, the key after `%` is a single byte, so only the first
  byte of a multi-byte character is looked up.
- Concurrency and sharing of sets between goroutines.
