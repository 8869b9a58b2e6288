# News normaliser — a Dafny model

The news screen of this project loads a list of raw news records from a
data provider and turns each one into a display record before rendering it
as a card. The normalisation step uses three helpers:

- `capitalizarPrimeraLetraPorPalabra` splits the title on single spaces,
  upper-cases the first character of every segment and joins the segments
  again.
- `obtenerTiempoTranscurridoEnMinutos` counts the whole minutes from the
  record's date to the current time, rounding down.
- `acortarTexto` keeps the first `n` UTF-16 code units of the description
  and always appends `"..."`. The model counts characters instead (see
  "Left out").

The `respuesta.map` callback builds the display record. It copies `id`,
`descripcion`, `esPremium` and `imagen`, and derives three fields:

- `titulo` through the title formatter;
- `fecha` as `"Hace {M} minutos"`;
- `descripcionCorta` with `n = 100`.

This project models that step as pure Dafny functions and proves what each
helper and the whole map guarantee.

Files:

- `wrappers.dfy`: `Option`.
- `segments.dfy`: `Segments`, the JavaScript `split(" ")` and `join(" ")`
  the title formatter is built from, with both round trips.
- `decimal.dfy`: `Decimal`, how an integer is printed inside the template
  literal, with a parser proved to be its inverse.
- `news.dfy`: `News`, the three helpers, the timestamp label, the two
  record types, the normalising map and their lemmas.

Instants are integer milliseconds. The source reads the wall clock with
`new Date()` inside the elapsed-time helper, once per record, so
`NormalizeNews` takes that reading as a parameter. `NormalizeAll` takes
one reading per record, in list order.

Dafny's `/` by a positive divisor rounds down, which is `Math.floor` of the
quotient, including for dates in the future.

The elapsed-time helper subtracts without taking an absolute value. A
future date therefore gives a negative count, for example
`"Hace -1 minutos"`, and the model keeps that: `ElapsedMinutes` states that
the count is non-negative exactly when the date is not in the future.

## Model

| member | source | states |
|---|---|---|
| Segments.Split | src/features/news/News.tsx:25 | `split(" ")` always yields at least one segment, and no segment contains a space |
| Segments.JoinCons | src/features/news/News.tsx:29 | `join(" ")` puts exactly one space between a first segment and the join of the rest, and adds nothing after a single segment |
| Segments.JoinSplit | src/features/news/News.tsx:25-29 | joining the segments of a split with single spaces gives back the original text |
| Segments.SplitSpaceFreePrefix | src/features/news/News.tsx:25 | a space-free prefix becomes part of the first segment of what follows it |
| Segments.SplitWordThenSpace | src/features/news/News.tsx:25 | a space-free word followed by a space splits off as its own segment |
| Segments.Join | src/features/news/News.tsx:29 | `join(" ")`, with its contract carried by `JoinCons` (one space between neighbours, a single segment joins to itself), `JoinSplit` and `SplitJoin` (the two round trips with `split(" ")`) |
| Segments.JoinPrepend | src/features/news/News.tsx:27-29 | a character put in front of the first segment ends up in front of the joined text, so upper-casing a first character commutes with `join(" ")` |
| Segments.SplitJoin | src/features/news/News.tsx:25-29 | splitting a join of space-free segments gives back exactly those segments |
| News.Upper | src/features/news/News.tsx:27 | a lower-case letter `a`-`z` becomes the upper-case letter at the same position of the alphabet; every other character is returned unchanged; the result is never a lower-case letter and is a space exactly when the input is |
| News.UpperIdempotent | src/features/news/News.tsx:27 | upper-casing twice is upper-casing once |
| News.CapitalizeWord | src/features/news/News.tsx:27 | a segment keeps its length and all characters after the first; its first character is upper-cased; an empty segment stays empty; a space-free segment stays space-free |
| News.CapitalizeWords | src/features/news/News.tsx:26-28 | the map over segments keeps their number and order and capitalises each one |
| News.CapitalizeFrom | src/features/news/News.tsx:23-30 | independent reference, character by character: same length, and a character is upper-cased exactly when it begins a word (first position, or after a space) |
| News.CapitalizeFromSplit | src/features/news/News.tsx:24-29 | the character-by-character reference equals split, then capitalise the segments, then join |
| News.Capitalize | src/features/news/News.tsx:23-30 | the title formatter equals the character-by-character reference `CapitalizeFrom`: it keeps the length, upper-cases exactly the first character and every character after a space, and keeps every other character, spaces included |
| News.CapitalizeEmpty | src/features/news/News.tsx:23-30 | the empty title gives the empty title |
| News.CapitalizeSegments | src/features/news/News.tsx:24-29 | the formatted title splits on spaces into as many segments as the input; each is the input segment with its first character upper-cased, so empty segments from leading, trailing or doubled spaces pass through |
| News.CapitalizeIdempotent | src/features/news/News.tsx:23-30 | formatting a formatted title changes nothing |
| News.ElapsedMinutes | src/features/news/News.tsx:40-45 | the count `m` brackets the difference: `m * 60000 <= now - fecha < (m + 1) * 60000` (the floor); it is non-negative exactly when `fecha <= now`, and negative for a future date |
| News.ElapsedMinutesUnique | src/features/news/News.tsx:44 | any count that brackets the difference that way is the computed one |
| News.ElapsedMinutesMonotone | src/features/news/News.tsx:41-44 | a later clock reading never gives fewer minutes |
| News.SubstringEnd | src/features/news/News.tsx:56 | `substring(0, n)` ends at `n` clamped into `[0, length]`: 0 for negative `n`, the length when `n` exceeds it |
| News.Shorten | src/features/news/News.tsx:55-57 | the result is the first `min(n, length)` characters (none for negative `n`) followed by `"..."`: exact length `min(n, length) + 3`, ends in `"..."`, the part before it is a prefix of the text; a text of length at most `n` still gets the ellipsis, giving exactly `texto + "..."`; a longer text keeps a proper prefix of length `n` |
| Decimal.NatToString | src/features/news/News.tsx:74 | a non-negative count prints as a non-empty run of decimal digits with no leading zero except for 0 itself |
| Decimal.IntToString | src/features/news/News.tsx:74 | a count prints as non-empty text that starts with `-` exactly when the count is negative; what follows the optional sign is a non-empty run of decimal digits with no leading zero, except for 0 itself |
| Decimal.ParseNatToString | src/features/news/News.tsx:74 | reading the digits of a non-negative count back gives that count |
| Decimal.ParseIntToString | src/features/news/News.tsx:74 | reading a printed count back gives that count |
| Decimal.IntToStringInjective | src/features/news/News.tsx:74 | different counts print differently |
| News.ElapsedLabel | src/features/news/News.tsx:74 | the label is exactly `"Hace "`, then `M` printed in decimal, then `" minutos"`; reading the count back out of the label gives `M`, so different counts give different labels |
| News.NormalizeAll | src/features/news/News.tsx:63-79 | the normalised list has the raw list's length and order; element `i` is the normalisation of raw record `i` with the clock reading taken for it |
| News.NormalizeNews | src/features/news/News.tsx:63-78 | a normalised record copies `id`, `descripcion`, `esPremium` and `imagen`. Its `titulo` has the raw title's length and is upper-cased exactly at word starts. Its `fecha` is exactly the label `"Hace {M} minutos"` for the elapsed minutes `M`, and reads back as `M`. Its `descripcionCorta` is the first `min(100, length)` characters of the description followed by `"..."`: exact length `min(100, length) + 3`, the part before `"..."` a prefix of the description |
| News.NormalizeAllKeepsIdsDistinct | src/features/news/News.tsx:71 | distinct raw ids, which are the card keys, stay distinct after normalisation |
| News.SplitExample | src/features/news/News.tsx:25 | `"homero simpson"` splits into `"homero"` and `"simpson"` |
| News.CapitalizeWordsExample | src/features/news/News.tsx:26-28 | those segments become `"Homero"` and `"Simpson"` |
| News.CapitalizeExample | src/features/news/News.tsx:23-30 | `"homero simpson"` is formatted as `"Homero Simpson"` |
| News.ElapsedLabelExample | src/features/news/News.tsx:74 | two minutes are labelled `"Hace 2 minutos"` |
| News.NormalizeNewsExample | src/features/news/News.tsx:63-79 | the record `{id 1, "homero simpson", a description of at most 100 characters, dated 125 s before now, not premium, "x.png"}` normalises to title `"Homero Simpson"`, label `"Hace 2 minutos"`, short description = whole description + `"..."`, other fields unchanged |

## Left out

- Upper: models `toUpperCase` only for the ASCII letters `a`-`z`; other characters are kept. Full Unicode case mapping is not modelled, including mappings that change length, such as `ß` to `SS`.
- Shorten: counts lengths and cuts in characters (Unicode scalar values), where JavaScript's `length` and `substring` count UTF-16 code units. For text with characters outside the Basic Multilingual Plane, such as emoji, the source keeps fewer than 100 characters and may cut a surrogate pair in half (`"😀".substring(0, 1)` is a lone high surrogate); the model keeps whole characters.
- Decimal.IntToString: models only plain decimal form; JavaScript prints numbers of magnitude `1e21` or more in exponent form, which does not arise for minute counts.
- Date parsing (`new Date(fecha)`) and the wall clock (`new Date()`) are not modelled. Instants are integer milliseconds, and clock readings are parameters. An unparseable date, which gives `NaN` and the label `"Hace NaN minutos"` in JavaScript, is not modelled.
- Floating-point division before `Math.floor` is modelled as exact integer floor division. It is exact for realistic millisecond timestamps.
- `substring` with a non-integer or `NaN` length is not modelled; the source only passes 100.
- The record `id` (a number or a string in the data) is modelled as an integer.
- React state is not modelled. This covers `useState` for the list and the modal, `useEffect` running the load once on mount, the `async` wrapper and `setNoticias`, because they are framework lifecycle with no logic of their own.
- The modal's select and dismiss transitions are not modelled; they live in `NewsCard` and `NewsModal`, which are not part of this model. Only the initial hidden state is visible in the screen.
- `obtenerNoticias`, the data provider, is not part of this model; its result is the input list.
- JSX rendering, the card and modal components and the styled components are presentation and are not modelled.
