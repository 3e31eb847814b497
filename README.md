# Mozart++ `format`: a Dafny model of the placeholder engine

The Mozart++ header `mozart++/mpp_string/format.hpp` provides
`mpp::format(template, args...)`. It substitutes the arguments, one by one and
in order, for the placeholder `{}` in a string. The model follows that header:

- **Placeholder search.** The regular expression `\{\}` is a search for the
  leftmost index `i` with `s[i] == '{'` and `s[i+1] == '}'`
  (`MppImpl.FindPlaceholder`). The search always covers the whole current
  string. The predicates `MppImpl.PlaceholderAt` and `MppImpl.HasPlaceholder`
  state that grammar, the expression built at format.hpp line 64.
- **One substitution step.** `try_format_partially` becomes the method
  `MppImpl.TryFormatPartially`. With no placeholder it answers false and leaves
  the text as it is. Otherwise it builds prefix + callback result + suffix and
  answers true. The C++ code passes the text by reference. Here it comes in as
  `text` and goes out as `result`.
- **Rendering.** `format_value` has three cases (`MppImpl.FormatValue`):
  - a `char` renders as itself;
  - a `char[N]` renders as its characters before the first NUL (`MppImpl.CStr`);
  - any other type goes to the library's external `mpp::to_string`. That is
    the parameter `toText: V -> string` of every operation.
- **The driver.**
  - `mpp_impl::format` becomes `MppImpl.FormatOne` (one argument) and
    `MppImpl.FormatArgs` (the variadic recursion with its early return).
  - `mpp::format` becomes `Mpp.Format`. It includes the zero-argument
    overload, which returns the template unchanged.
  - The C++ parameter pack is a sequence `seq<Arg<V>>`.
  - The value each driver computes is given by the functions `MppImpl.Step`,
    `MppImpl.Formatted` and `MppImpl.Consumed`.

What the model shows about this behaviour:

- The first argument that finds no placeholder ends the run. The arguments
  after it are dropped without notice.
- Placeholders left over when the arguments run out stay in the text as
  literal `{}`.
- Each step searches again from the start of the whole string, including text
  that earlier arguments inserted. An argument whose rendering is `{}` is
  therefore itself filled by the next argument
  (`FormatProperties.RenderedPlaceholderIsReused`).
- An empty rendering can join the braces around it into a new `{}`
  (`FormatProperties.EmptyRenderJoinsBraces`).
- When no rendering is empty and none holds a brace, the engine gives the same
  result as a left-to-right cursor that never scans inserted text again
  (`FormatProperties.CursorAgreement`, against the reference definition
  `FormatProperties.CursorFormat`).

The header recognises only the bare `{}`. It has no directives inside the
braces, no save and restore of stream state, and no bracketed rendering of
arrays. It always searches the whole current string, never a shrinking
remainder.

Files:
- `mpp_impl.dfy`: module `MppImpl`, for namespace `mpp_impl`.
- `mpp.dfy`: module `Mpp`, for namespace `mpp`.
- `format_properties.dfy`: module `FormatProperties`, which holds the lemmas.

## Model

| member | source | states |
|---|---|---|
| MppImpl.FindFrom | mozart++/mpp_string/format.hpp:23 | a result at or after the start index is a `{}` with no `{}` between the start and it; no result means no `{}` from the start index on |
| MppImpl.FindPlaceholder | mozart++/mpp_string/format.hpp:23-26 | the match found by the regex iterator over the whole text: a `{}`, with no `{}` before it; no match exactly when the text holds no `{}` |
| MppImpl.TryFormatPartially | mozart++/mpp_string/format.hpp:19-34 | true exactly when the text holds a `{}`; on false the text is unchanged; on true the leftmost `{}` at `i` is replaced: prefix `text[..i]`, then the callback's string for the match (position `i`, length 2), then `text[i+2..]`; the new length is the old length minus 2 plus the callback string's length |
| MppImpl.CStr | mozart++/mpp_string/format.hpp:50-55 | `std::string(str)` of a buffer: a prefix of it with no NUL, followed in the buffer by a NUL unless it is the whole buffer |
| MppImpl.FormatValue | mozart++/mpp_string/format.hpp:36-60 | `format_value` through `format_value_helper`: a `char` renders as a one-character string of that character; a `char[N]` as the buffer prefix before its first NUL; any other value as the external `to_string` |
| FormatProperties.CStrStopsAtFirstNul | mozart++/mpp_string/format.hpp:52-54 | when `n` is the index of the first NUL, the buffer renders as exactly its first `n` characters |
| FormatProperties.CStrWithoutNul | mozart++/mpp_string/format.hpp:52-54 | a buffer holding no NUL renders whole |
| MppImpl.Step | mozart++/mpp_string/format.hpp:62-68 | one argument against a text succeeds exactly when the text holds a `{}`; on success the length changes by the rendering's length minus 2 |
| MppImpl.Consumed | mozart++/mpp_string/format.hpp:70-76 | the number of arguments substituted is at most the number of arguments |
| MppImpl.Formatted | mozart++/mpp_string/format.hpp:70-76 | the text after feeding the arguments in order, stopping at the first that finds no `{}`: a template without `{}` is returned unchanged, and a run that stopped before the last argument leaves no `{}` in its result |
| MppImpl.FormatOne | mozart++/mpp_string/format.hpp:62-68 | single-argument `format`: true exactly when the text holds a `{}`; unchanged text on false; on true the text after one step with the argument's rendering |
| MppImpl.FormatArgs | mozart++/mpp_string/format.hpp:70-76 | variadic `format`: returns at the first argument that finds no placeholder, otherwise recurses on the rest; the result is the text after feeding the arguments in order |
| Mpp.Format | mozart++/mpp_string/format.hpp:79-88 | with no arguments the template is returned unchanged; otherwise the driver's result on a copy of the template |
| FormatProperties.NoPlaceholderIsIdentity | mozart++/mpp_string/format.hpp:62-76 | a template without `{}` is returned unchanged for any arguments, and no argument is consumed |
| FormatProperties.StopDropsRest | mozart++/mpp_string/format.hpp:70-76 | once an argument finds no `{}`, the final text holds no `{}`, and appending any further arguments changes neither the result nor the count consumed |
| FormatProperties.OnlyConsumedMatter | mozart++/mpp_string/format.hpp:70-76 | the result depends only on the consumed prefix of the arguments, and that prefix is consumed entirely |
| FormatProperties.Compose | mozart++/mpp_string/format.hpp:70-76 | when every argument of `a` is consumed, formatting with `a + b` is formatting with `a`, then with `b` on that result; the counts add up |
| FormatProperties.FormattedLength | mozart++/mpp_string/format.hpp:25-29 | the final length is the template length, plus the lengths of the consumed arguments' renderings, minus 2 per consumed argument |
| FormatProperties.HelloExample | tests/test-format.cpp:13 | one argument against `"hello {} {} {}"` gives `"hello " + to_string(x) + " {} {}"`: only the first placeholder is replaced |
| FormatProperties.FormatterExample | tests/test-format.cpp:16 | `"this is {} formatter"` with the string literal `"mpp"` gives `"this is mpp formatter"` |
| FormatProperties.CursorAgreement | mozart++/mpp_string/format.hpp:23-29 | if every rendering is non-empty and brace-free, searching the whole text again at each step gives the same result as a cursor that fills the template's placeholders left to right |
| FormatProperties.RenderedPlaceholderIsReused | mozart++/mpp_string/format.hpp:23 | `"a{}b{}"` with the literal `"{}"` (NUL-terminated) then `'x'` gives `"axb{}"`, because the second search starts at the beginning of the string; a cursor would give `"a{}bx"` |
| FormatProperties.EmptyRenderJoinsBraces | mozart++/mpp_string/format.hpp:23-29 | `"{{}}"` with the literal `""` (a lone NUL) then `'x'` gives `"x"`: the empty rendering joins `{` and `}` into a new placeholder, so both arguments are consumed; a cursor would give `"{}"` |

## Left out

- `std::regex` as a parameter: `TryFormatPartially` is written for the one expression the header passes, `\{\}`, as a literal search.
- `mpp::to_string` (from the library's core and `any` headers) is not part of this model. It is the uninterpreted parameter `toText`.
- Rendering of the test's `0.1 + 0.2`: floating-point text is whatever `to_string` returns, so `HelloExample` states only the shape of the result.
- The stream form `mpp::format(std::cout, ...)` at tests/test-format.cpp:16: the header defines no stream overload, and stream output is I/O. `FormatterExample` states the string form of that call.
- C++ variadic templates and perfect forwarding: the arguments are a sequence. Every argument of the "other" kind shares one type `V`. A call that mixes several such types uses a sum type for `V`.
- `char` is Dafny's `char`, not an 8-bit byte. Characters are only copied, so no width or wrap-around question arises. Positions are unbounded `nat` rather than `size_t`.
- `CStr`: a `char[N]` with no NUL inside its `N` characters is undefined in C++. String literals always end with one. The model then takes the whole buffer.
- Memory allocation and `std::swap`: the method returns the new string instead of swapping it into a reference.
