# File server and weather tool, modelled in Dafny

This project models two small Go programs.

- **File server** (`file-server/main.go`). It serves a directory over HTTP. Each request path is joined onto the root and made absolute. Paths that the character-prefix check rejects get 403; some siblings of the root pass it (see Findings). Missing entries and stat errors are answered with their status codes. A file is handed to `http.ServeFile`. A directory gets a listing page with:
  - a parent link, unless the request path is `/`;
  - one row per entry: link, name, size;
  - a heading that writes the directory relative to the user's home (`~/…`).
- **Weather tool** (`weather/main.go`). It is a Bubble Tea terminal program. A text input takes a city name. `enter` starts a fetch. Reports and errors arrive as messages. `View` shows one of four screens.

The modules are:

- `Wrappers`: the `Option` type.
- `Paths`: the lexical part of Go's `path/filepath` on a Unix host, which the server relies on throughout:
  - `Clean`, `Join`, `Abs`, `Dir`, `Rel` and `HasPrefix`;
  - `Clean` is modelled as a stack scan over the fields between slashes.
- `SizeFormat`: `formatFileSize`, with `%d` and `%.2f` computed on integers.
- `FileServer`: the request handler and its parts:
  - `isPathInDir` and `getRelativePath`;
  - the row building of `serveDirectoryListing`, written as a method with a loop;
  - a segment-aware variant of the containment check (see Findings).
- `Weather`: the state, `Update` (as a function returning the next state and a command), `View`'s choice of screen, and `strings.TrimSpace`.

Effects are inputs of the model, not effects:

- `os.Stat` and `os.ReadDir` are the two functions of a `FileSystem` value.
- `DirEntry.Info()` is an optional `FileInfo` on each entry.
- `os.Getwd` (behind `filepath.Abs`) and `os.UserHomeDir` are the optional fields of a `Host` value.
- `textinput.Update` is an `Edit`: the new input text and the widget's command, given to `Update`.

Two places where the code decides, and the model follows the code:

- **Containment.** The handler's comment and common practice ask for containment in the root to be checked on path-element boundaries. The code (`file-server/main.go:67`) compares characters, so a sibling directory whose name extends the root's last name is admitted. `Handle` models the code. The segment-aware variant is modelled next to it (see Findings).
- **Rounding.** `%.2f` rounds the exact binary quotient `size / unit` to hundredths, and an exact half goes to the even neighbour. For example, 1152 bytes is exactly 1.125 KB and prints as `1.12 KB`. The model rounds that way rather than half up.

## Model

| member | source | states |
|---|---|---|
| FileServer.Handle | file-server/main.go:17-55 | the handler as written: the dispatch with the character-prefix check (definition; its behaviour is stated by `DispatchOrder`, `ContainmentDecides` and the lemmas below) |
| FileServer.Dispatch | file-server/main.go:22-53 | the early-return dispatch 400 → 403 → 404 → 500 → listing or `http.ServeFile`, with the containment check as a parameter (definition; see `DispatchOrder`, `SegmentAwareStaysInside`) |
| FileServer.Resolve | file-server/main.go:23-24 | `filepath.Abs` of `filepath.Join(dir, r.URL.Path)`, absent when `Abs` fails (definition; see `AbsoluteRootResolves`) |
| FileServer.IsPathInDir | file-server/main.go:58-68 | `isPathInDir`: false when either `Abs` fails, otherwise whether the absolute root is a character prefix of the absolute path (definition; see `ContainmentCharacterised`) |
| SizeFormat.FormatFileSize | file-server/main.go:71-80 | `formatFileSize`: `%d B` below 1024, else `%.2f` with the KB, MB or GB unit chosen by thresholds (definition; see `SmallSizeExact`, `ScaledSizeRounded`) |
| FileServer.GetRelativePath | file-server/main.go:83-103 | `getRelativePath` with the outcomes of `os.UserHomeDir` and `os.Getwd` as inputs (definition; see `DisplayPath`, `DisplayPathBelowHome`, `SiblingOfHome`) |
| FileServer.DirectoryListing | file-server/main.go:106-184 | `serveDirectoryListing`: 500 when `ReadDir` fails, otherwise the page's title, heading and rows (definition; see `ListingRows`, `ServeDirectoryListing`) |
| FileServer.ParentRows | file-server/main.go:148-156 | the parent row, present unless the request path is `/` (definition; see `ParentLinkDropsLast`, `TrailingSlashParentIsSelf`, `RootHasNoParent`) |
| FileServer.EntryRows | file-server/main.go:159-181 | the rows of the entry loop; every one is an entry row, never a parent row (see `EntryRowsFollowReadable`, `UnreadableEntrySkipped`) |
| FileServer.RowFor | file-server/main.go:160-175 | the row of one readable entry (definition; see `EntryRowColumns`, `EntryLinkExtends`) |
| Paths.Clean | file-server/main.go:23-24 | `filepath.Clean`, the lexical clean inside `Join` and `Abs`, as a stack scan over the fields between slashes (definition; see `CleanIdempotent`, `JoinOntoAbsolute`) |
| Paths.Join | file-server/main.go:23 | `filepath.Join`, also used for the entry links at line 170 (definition; see `JoinOntoAbsolute`, `EntryLinkExtends`) |
| Paths.Abs | file-server/main.go:24 | `filepath.Abs`, with the outcome of `os.Getwd` as input (definition; see `JoinOntoAbsolute`) |
| Paths.HasPrefix | file-server/main.go:67 | `filepath.HasPrefix`, a character prefix (definition; see `JoinPrefixIff`, `SegmentPrefixVersusLoose`) |
| Paths.Rel | file-server/main.go:93 | `filepath.Rel` for absolute arguments (definition; see `RelJoinRoundTrip`, `RelBelow`) |
| Paths.Dir | file-server/main.go:150 | `filepath.Dir` (definition; see `DirDropsLast`) |
| Weather.Update | weather/main.go:80-109 | `Update`: the widget's edit first, then quit keys, `enter`, a report or an error (definition; see the `Weather` lemmas below) |
| Weather.View | weather/main.go:115-178 | `View`'s choice of screen (definition; see `ViewOrder`, `NoWeatherAfterError`) |
| Weather.TrimSpace | weather/main.go:90 | `strings.TrimSpace` over `unicode.IsSpace` (definition; see `TrimSpaceSlice`, `TrimSpaceIdempotent`) |
| FileServer.DispatchOrder | file-server/main.go:22-53 | 400 exactly when `Abs` fails; 403 exactly when it resolves and the containment check refuses; otherwise 404 for not-exist, 500 for any other stat error or a failed `ReadDir`, the file for a non-directory, the listing for a readable directory |
| FileServer.ForbiddenBeforeStat | file-server/main.go:30-37 | a refused path gets 403 whatever the file system holds: `os.Stat` is not consulted |
| FileServer.AbsoluteRootResolves | file-server/main.go:22-28 | with an absolute root, the resolved path is the clean form of root + "/" + request, absolute and made of names only (no `.` or `..`), so 400 never happens |
| FileServer.ContainmentCharacterised | file-server/main.go:58-68 | with an absolute root, `isPathInDir` accepts exactly when every root element but the last starts the resolved path and the last is a character prefix of the next element; a segment-wise descendant is accepted; an accepted non-descendant is a sibling whose name extends the root's last name |
| FileServer.ContainmentDecides | file-server/main.go:30-34 | with an absolute root, a refused request is answered 403, and an accepted one never gets 400 or 403 |
| FileServer.WithoutUpStaysInside | file-server/main.go:23-34 | a request without a `..` field resolves below the root (segment-wise) and is accepted |
| FileServer.ForbiddenNeedsUp | file-server/main.go:23-34 | a 403 happens only for a request path that has a `..` field |
| FileServer.SiblingAccepted | file-server/main.go:58-68 | for any root whose last element `a` is a character prefix of a longer name `b`, the request `/../b/…` resolves to the sibling `…/b/…`, which is not below the root (segment-wise), yet the check accepts it |
| FileServer.SiblingDirectoryAccepted | file-server/main.go:58-68 | root `/srv/data` and request `/../data2/x` resolve to `/srv/data2/x`, which is not below the root, yet the check accepts it |
| FileServer.ClimbOutRefused | file-server/main.go:22-34 | a request that climbs out of the root with one `..` per root element resolves to `/` followed by its remaining elements, and is answered 403 when those do not extend the root's elements |
| FileServer.TraversalRefused | file-server/main.go:22-34 | root `/srv/data` and request `/../../etc` resolve to `/etc`, answered 403 |
| FileServer.ServeDirectoryListing | file-server/main.go:106-184 | the handler's listing is exactly what the method writes: the parent row (if any) followed by the rows of the entries, skipping those whose `Info()` fails; a failed `ReadDir` gives 500 "Unable to read directory" before any row |
| FileServer.AppendEntryRows | file-server/main.go:159-181 | the loop over the entries appends, in read order, one row per entry whose `Info()` succeeds and nothing for the others |
| FileServer.BuildRow | file-server/main.go:160-172 | one pass of the loop: size `-` for a directory, else `formatFileSize`; link is the request path joined with the name; a directory's name gets a trailing `/` |
| FileServer.ListingRows | file-server/main.go:148-181 | on a listing page, a parent row comes first exactly when the request path is not `/`, and it links to `Dir` of the request path; no other row is a parent row; then, position by position, the row of each entry whose `Info()` succeeded, in read order |
| FileServer.EntryRowsFollowReadable | file-server/main.go:159-173 | the entry rows are, position by position, the rows of the entries whose `Info()` succeeded, in read order |
| FileServer.UnreadableEntrySkipped | file-server/main.go:161-164 | an entry whose `Info()` fails contributes nothing and the entries around it are still listed |
| FileServer.EntryRowColumns | file-server/main.go:165-175 | a row's size is `-` exactly for a directory, its name ends in `/` exactly for a directory, a directory's row carries its name followed by `/`, and a file's row carries its name and `formatFileSize` of its size |
| FileServer.EntryLinkExtends | file-server/main.go:170 | for a clean request path, an entry's link is that path extended by the entry's name |
| FileServer.ParentLinkDropsLast | file-server/main.go:148-150 | for a clean request path other than `/`, the parent link is that path without its last element |
| FileServer.TrailingSlashParentIsSelf | file-server/main.go:148-150 | for a request path other than `/` with a trailing slash, which `ServeMux` does not redirect, the parent link is the same path without the slash: the page's own directory (see Findings) |
| FileServer.LexicalParentRows | file-server/main.go:148-150 | the intended parent row: `Dir` of the cleaned request path, none for the root (definition; see `LexicalParentDropsLast`) |
| FileServer.LexicalParentDropsLast | file-server/main.go:148-150 | with or without a trailing slash, the intended parent link is the request path without its last element, the root has none, and on a clean request path it is the row the listing builds |
| FileServer.RootHasNoParent | file-server/main.go:148-149 | the root page has no parent row |
| FileServer.DisplayPath | file-server/main.go:83-103 | without a home directory the heading is the path; with one, if home is a character prefix of the clean path the heading is `~/` (exactly when they are the same directory) or `~/` + a relative path that joined onto home gives the clean path back, and otherwise it is the clean path |
| FileServer.DisplayPathBelowHome | file-server/main.go:92-100 | for a path strictly below home (segment-wise), the heading is `~/` followed by the remaining elements |
| FileServer.SiblingOfHome | file-server/main.go:92-100 | for any home whose last element `a` is a character prefix of a longer name `b`, the sibling directory `…/b` is headed `~/../b`: the character prefix lets a directory outside home take the `~/` form |
| FileServer.SiblingOfHomeDisplay | file-server/main.go:92-100 | with home `/a/b`, the sibling `/a/bc` is headed `~/../bc` |
| FileServer.SegmentAwareCharacterised | file-server/main.go:57-68 | the segment-aware check accepts exactly the requests below the root (segment-wise), and accepts nothing the character check refuses |
| FileServer.SegmentAwareStaysInside | file-server/main.go:30-53 | the handler with the segment-aware check serves a file or a listing only below the root, and answers every request below the root as the handler as written does |
| FileServer.SegmentAwareRefusesSibling | file-server/main.go:30-34 | the segment-aware handler answers every sibling request that `SiblingAccepted` describes (among them `/../data2/x` against `/srv/data`) with 403 |
| SizeFormat.SmallSizeExact | file-server/main.go:72-73 | below 1024, negatives included, the text is the exact decimal count followed by ` B`: a minus sign exactly for a negative size, then digits without a leading zero, as `%d` prints |
| SizeFormat.ScaledSizeRounded | file-server/main.go:74-79 | from 1024 up, the unit is KB below 1024², MB below 1024³, else GB, and the number shown is size/unit to the nearest hundredth, an exact half shown as the even neighbour; the whole part has no leading zero, as `%.2f` prints it |
| SizeFormat.RoundHalfEven | file-server/main.go:75 | the rounded value is within half a unit of the quotient, and even when exactly half way |
| SizeFormat.TwoDecimalsRoundTrip | file-server/main.go:75 | reading back a number written with two decimals gives its hundredths |
| SizeFormat.LeadingZeroOnlyForZero | file-server/main.go:73 | a decimal numeral starts with `0` exactly when it is `0` itself |
| SizeFormat.ParseIntDecimal | file-server/main.go:73 | reading back a number written by `%d` gives the number |
| SizeFormat.ByteExamples | file-server/main.go:72-73 | 500 → `500 B`, -5 → `-5 B`, 1023 → `1023 B` |
| SizeFormat.KilobyteExamples | file-server/main.go:74-79 | 1024 → `1.00 KB`, 2048 → `2.00 KB`, 1152 → `1.12 KB` (an exact half, rounded to even) |
| SizeFormat.TierBoundaryExample | file-server/main.go:74-79 | 1048575 → `1024.00 KB`: the unit is chosen before rounding |
| SizeFormat.LargeExamples | file-server/main.go:74-79 | 5 MiB → `5.00 MB`, 3 GiB → `3.00 GB` |
| Paths.JoinOntoAbsolute | file-server/main.go:23-24 | joining any request onto an absolute root scans the request's fields on top of the root's clean elements; the result is absolute, names only, and `Abs` returns it unchanged |
| Paths.CleanIdempotent | file-server/main.go:24 | cleaning a clean path changes nothing |
| Paths.NormalizeWithoutUp | file-server/main.go:23 | fields without `..` only append their names to the elements already kept |
| Paths.JoinPrefixIff | file-server/main.go:67 | for names, the joined root is a character prefix of the joined path exactly when all but the last root element agree and the last is a character prefix of the corresponding element |
| Paths.SegmentPrefixVersusLoose | file-server/main.go:67 | a segment-wise prefix is a character prefix; a character prefix that is not segment-wise differs only in a proper extension of the last root element |
| Paths.DirDropsLast | file-server/main.go:150 | `Dir` of a clean absolute path drops its last element |
| Paths.RelJoinRoundTrip | file-server/main.go:93 | for absolute paths, `Rel` succeeds and joining its result onto the base gives the clean target |
| Paths.RelBelow | file-server/main.go:93 | for a target strictly below the base, `Rel` is the target's remaining elements |
| Weather.InitialModel | weather/main.go:62-72 | the program starts with no report, no error and not loading |
| Weather.Init | weather/main.go:74-76 | `Init`: the widget's cursor-blink command, the program's first command (definition) |
| Weather.StartsAtPrompt | weather/main.go:62-72 | the first screen is the empty input prompt |
| Weather.TrimSpaceSlice | weather/main.go:90 | the trimmed city is the slice of the input between leading and trailing spaces, starts and ends with a non-space, and is empty exactly when the input is blank |
| Weather.TrimSpaceIdempotent | weather/main.go:90 | trimming twice is trimming once |
| Weather.QuitKeysQuit | weather/main.go:86-88 | `ctrl+c` and `q` return the quit command whatever the state, changing only the widget's input |
| Weather.BlankEnterDoesNotFetch | weather/main.go:89-108 | `enter` on a blank input leaves report, error and loading flag as they were and returns the widget's command |
| Weather.EnterFetchesTrimmedCity | weather/main.go:89-94 | `enter` on a non-blank input sets loading and fetches the trimmed city (non-empty, no space at either end), leaving report and error as they were |
| Weather.FetchOnlyFromEnter | weather/main.go:84-108 | a fetch command comes exactly from `enter` with a non-blank input, for the trimmed city, and sets loading |
| Weather.WeatherStored | weather/main.go:97-100 | a report is stored, loading ends, the error stays, no command |
| Weather.ErrorStored | weather/main.go:102-105 | an error is stored, loading ends, the report stays, no command |
| Weather.WidgetCommandOtherwise | weather/main.go:80-108 | any other key or message only takes the widget's new input and returns the widget's command |
| Weather.NeverCleared | weather/main.go:97-105 | no transition clears an error or a report |
| Weather.ErrorPersists | weather/main.go:80-109 | after any sequence of messages, an error once present is still present |
| Weather.ViewOrder | weather/main.go:115-178 | `View` shows loading if loading; else the error if there is one; else the report's city, country and first condition (a panic when the condition list is empty); else the input prompt |
| Weather.NoWeatherAfterError | weather/main.go:97-126 | once an error has arrived, whatever follows, `View` shows only the loading screen or the error, never the report |

## Findings

| source | as written | input that shows it | evidently intended | confidence | as-written member | corrected member |
|---|---|---|---|---|---|---|
| file-server/main.go:67 | containment is `filepath.HasPrefix(pathAbs, baseAbs)`, a character prefix | root `/srv/data`, request `/../data2/x`: the path `/srv/data2/x` is accepted by the handler (in general: any sibling whose name extends the root's last name, `SiblingAccepted`); a sibling directory is listed, and the 404 and 500 answers tell which sibling paths exist | only paths whose elements start with the root's are admitted ("Ensure the path is within the directory") | high; not executed | FileServer.SiblingDirectoryAccepted | FileServer.SegmentAwareStaysInside |
| file-server/main.go:150 | the parent link is `filepath.Dir(r.URL.Path)` of the raw request path | request `/img/` (in general: any path other than `/` with a trailing slash, `TrailingSlashParentIsSelf`): `ServeMux` keeps the trailing slash when it cleans, so the request reaches the handler unredirected, and the parent link is `/img`, which lists the same directory again | the parent link leads to the parent directory, `/` for `/img/` ("Add parent directory link") | medium; not executed | FileServer.TrailingSlashParentIsSelf | FileServer.LexicalParentDropsLast |

What the accepted sibling request of the first row leads to:

- A sibling directory gets its listing page.
- A sibling file is handed to `http.ServeFile`, whose own guard answers 400 to a request path with a `..` element, so its bytes are not sent.
- The handler only sees a request path with a `..` element when the router passes it through uncleaned. `ServeMux` cleans request paths and redirects to the clean form, except for `CONNECT` requests, which it passes on as they are.

For the parent link, `ParentRows` keeps `Dir` of the raw request path, and the listing uses it. `LexicalParentRows` takes `Dir` of the cleaned path. It agrees with `ParentRows` on clean paths, and on a path with a trailing slash it links to the parent.

`Handle` keeps the check as written, because it models the program. `HandleSegmentAware` is the same dispatch with the check `IsWithinDir`. `SegmentAwareRefusesSibling` shows that it refuses every such sibling request, the one above included.

## Left out

- HTTP plumbing is not modelled: request logging, `http.Error`'s writing, the byte streaming of `http.ServeFile`, headers, and the routing and path cleaning of `ServeMux`. A response is its status and message, the path handed to `http.ServeFile`, or the data of the listing page.
- `http.ServeFile`'s own checks are not modelled: it answers 400 "invalid URL path" when the request path has a `..` element (split at `/` and `\`), before opening anything. `FileResponse` is the hand-off to it, not the bytes sent.
- Paths are strings of Unicode characters, while Go compares bytes. The two agree for valid UTF-8; a request path that is not valid UTF-8 cannot be represented.
- Startup (`main`) is not modelled: flag parsing, the startup `Abs` and `Stat`, `ListenAndServe` in a goroutine, opening the browser, `select {}`. The lemmas that need an absolute root take one as a precondition. That root is what startup hands the handler.
- The HTML, CSS and SVG text of the listing is not modelled: rows are data. The icon is left out with it, since it only tells directories from files, which the row's name and size already do.
- Modification times are not modelled, because their formatting depends on the local time zone.
- SizeFormat.FormatFileSize: exact only below 2^53 bytes. Above that, `float64(size)` loses precision, and that conversion is not modelled.
- `filepath` is modelled for Unix only (slash separator, no volume names). `Rel` is modelled on clean elements and agrees with Go for absolute arguments, the only ones the server passes. For relative arguments it is not exact: a target that cleans to `.` gives `..` where Go gives `../.`.
- `textinput` internals are not modelled: what the widget does with a message is the `Edit` given to `Update`. Character limit, width and cursor blinking are the widget's.
- `fetchWeather` is not modelled: the environment lookup, the HTTP request, JSON decoding and the unescaped city in the URL. Its outcome arrives as a `WeatherArrived` or `ErrorArrived` message.
- The weather screen's text is not modelled: the Kelvin-to-Celsius float arithmetic, the colour thresholds, `unixToTime` (time-zone dependent) and lipgloss styling. `View` is modelled as its choice of screen and the fields that choice reads.
- An empty condition list makes `View`'s `Weather[0]` panic. That is modelled as the `IndexPanic` screen, not as the runtime's recovery.
- Every message that is not a key press, a report or an error (window sizes, blinks) is one `OtherMsg`. A key press is its `String()` name.
