# BlackBox terminal, shell, paths and identifiers in Dafny

This project models the sequential core of BlackBox, a simulated computer that
runs in a MonoGame window:

- **The terminal** (`Terminal.cs`). It is a 1000-row scrollback grid of glyphs
  and colours with a write cursor, a viewport offset and a content mark.
  `Screen` is the pure specification of its state and of every operation.
  `Terminal.Terminal` is a class over three `array2` grids, written in place
  as the source does. Each method that carries out a terminal operation is
  proved to leave the arrays and fields equal to a `Screen` function of the
  old state: `WriteChar` to `PutChar`, the others to the function of the same
  name. The helper methods `CopyRowUp`, `BlankRowAt`, `ShiftRows` and
  `PlaceChar` are stated directly on the arrays.
- **The shell** (`Machine/Shell.cs`). It is a one-line editor anchored at a
  prompt column, with history, backspace, arrows and submission to an
  executor. `Editor` is the pure specification, and `Shell.Shell` is the
  class that updates the buffer, history, index and prompt column while
  moving the terminal's cursor and writing to it. Wherever the source throws
  (`String.Insert`, `String.Remove`, or `new string(' ', n)` with a negative
  count), the model returns `None` and the method reports `crashed`.
- **The virtual filesystem paths** (`System/IO/Path.cs`). `Paths` covers:
  - the host directory that stands for a user path;
  - the `__<name>` data file inside it;
  - the join of a parent path and a child;
  - the name `List` gives to each host subdirectory.
- **The identifiers** (`System/Utils/GUID.cs`, `Machine/Peripherals/GUID.cs`,
  `Machine/Peripherals/Device.cs`). These are versions 4, 7 and 8 of RFC 9562.
  - `Uuid` holds the shared byte layout: version and variant stamps,
    big-endian packing, the 8-4-4-4-12 hex text and its parser, and the
    signed 128-bit big-endian reading.
  - `Guid` is the identifier object. `PeripheralGuid` and `PeripheralDevice`
    are the generators that return text and numbers.
- **The device registry** (`System/Peripherals/Device.cs`). Every device
  appends itself to one shared list. Its identifier is a version 8 identifier
  whose family byte is the device type and whose node byte is its list
  position, cast to a byte.

Bytes are the integers 0-255. The C# bit operations on them are written as
the arithmetic they amount to:

- `b & 0x0F` is `b % 0x10`;
- `b >> 4` is `b / 0x10`;
- OR-ing in disjoint bits is addition;
- `(byte)x` is `x % 0x100`.

Random bytes and `World.ShipTime` are parameters.

`Terminal.Write` moves the viewport to the bottom before the text is written
and never re-clamps it afterwards. So a write that grows the content can
leave the viewport above the bottom (`Screen.WriteCanEndAboveBottom`).

## Model

| member | source | states |
|---|---|---|
| Screen.Cleared | Terminal.cs:41-56 | every cell of all 1000 rows is a blank in the default colours; cursor, viewport and content mark are 0 |
| Screen.ScrollUp | Terminal.cs:122-147 | row y takes the old row y+1 for y < 999, the last row is a blank row in the default colours, and the cursor row, viewport and content mark each drop by one, floored at 0 |
| Screen.LineFeed | Terminal.cs:74-82 | column 0 of the next row; on the last row the grid shifts up and the cursor stays on row 999 |
| Screen.PutChar | Terminal.cs:70-120 | one character keeps the grid shape, a cursor row inside the grid and a cursor column of at most Width, and never moves the viewport down |
| Screen.Write | Terminal.cs:58-68 | after any write the cursor row is below the content mark, the content mark is at most 1000, the cursor column is at most Width, and the viewport is no further down than the bottom computed before the text; the exact marks for text within one row are stated by WriteInRow |
| Screen.ScrollToBottom | Terminal.cs:162-166 | the viewport is at the bottom (IsAtBottom holds) and nothing else changes |
| Screen.PageUp | Terminal.cs:149-153 | on a terminal at least one row high the viewport becomes max(0, ViewportOffset-(Height-1)): back by Height-1 when that stays at or above 0, and 0 otherwise; cells, cursor and content are unchanged |
| Screen.PageDown | Terminal.cs:155-160 | the viewport becomes min(max(0, ContentLines-Height), ViewportOffset+Height-1): forward by Height-1 when that stays within the bottom, and the bottom otherwise; cells, cursor and content are unchanged |
| Screen.PutTextAppend | Terminal.cs:58-66 | writing a text in two pieces is writing it in one |
| Screen.PutPrintableInRow | Terminal.cs:102-118 | printable text that fits in the cursor row is stored from the cursor column in the current colours, the cursor ends just after it (possibly at column Width, with no wrap), and nothing else changes |
| Screen.WriteInRow | Terminal.cs:58-68 | Write of printable text that fits in the row paints it there and moves only the cursor column; the content mark becomes max(ContentLines, CursorY+1) and the viewport max(0, ContentLines-Height) of the state before the text |
| Screen.FullRowThenWrap | Terminal.cs:102-117 | Width printable characters from column 0 leave the cursor at column Width on the same row; one more goes to column 0 of the next row and leaves the cursor at 1, and the full row is kept just above |
| Screen.TabStopIsNextMultiple | Terminal.cs:89 | `(x + 8) & ~7` is the least multiple of 8 strictly beyond x |
| Screen.TabCharacter | Terminal.cs:88-100 | '\t' moves to the next multiple of 8 inside the row, or is a line feed when that is at or past Width |
| Screen.CarriageReturn | Terminal.cs:84-86 | '\r' only zeroes the cursor column |
| Screen.FeedsAtBottom | Terminal.cs:74-81 | k newlines on the last row keep the old rows from k on followed by k blank rows (the oldest rows are discarded first), with content mark and viewport each lowered by k, floored at 0 |
| Screen.WriteDiscardsScrollBack | Terminal.cs:60 | the result of Write does not depend on any paging done before it |
| Screen.WriteCanEndAboveBottom | Terminal.cs:60-67 | a newline on a one-row terminal leaves the viewport above the bottom |
| Screen.PagingRoundTrip | Terminal.cs:149-160 | PageDown undoes a PageUp that did not hit the top, and PageUp undoes a PageDown that did not hit the bottom |
| Terminal.Terminal.constructor | Terminal.cs:29-39 | a width x 1000 grid, white on black, cleared |
| Terminal.Terminal.Clear | Terminal.cs:41-56 | the nested loops leave the arrays and fields equal to Screen.Cleared |
| Terminal.Terminal.CopyRowUp | Terminal.cs:126-131 | row y of the three grids takes row y+1 and no other cell changes |
| Terminal.Terminal.BlankRowAt | Terminal.cs:134-139 | the row becomes blanks in the default colours and no other cell changes |
| Terminal.Terminal.ShiftRows | Terminal.cs:124-139 | every row but the last holds the cells of the row below it, and the last row is blank |
| Terminal.Terminal.ScrollUp | Terminal.cs:122-147 | the arrays and fields become Screen.ScrollUp of the old state |
| Terminal.Terminal.LineFeed | Terminal.cs:74-81 | the arrays and fields become Screen.LineFeed of the old state |
| Terminal.Terminal.WriteChar | Terminal.cs:70-120 | the arrays and fields become Screen.PutChar of the old state |
| Terminal.Terminal.PlaceChar | Terminal.cs:114-117 | the cell under the cursor takes the glyph in the current colours and the cursor column advances by one |
| Terminal.Terminal.Write | Terminal.cs:58-68 | the loop over the text leaves the arrays and fields equal to Screen.Write of the old state |
| Terminal.Terminal.PageUp | Terminal.cs:149-153 | the state becomes Screen.PageUp of the old state |
| Terminal.Terminal.PageDown | Terminal.cs:155-160 | the state becomes Screen.PageDown of the old state |
| Terminal.Terminal.ScrollToBottom | Terminal.cs:162-166 | the state becomes Screen.ScrollToBottom of the old state |
| Terminal.Terminal.IsAtBottom | Terminal.cs:168-172 | true exactly when the viewport is at or past max(0, ContentLines-Height) |
| Terminal.Terminal.GetChar | Terminal.cs:174-180 | the glyph at row y + ViewportOffset when x and y are on screen and the row is in the grid, otherwise ' ' |
| Terminal.Terminal.GetForegroundColor | Terminal.cs:182-188 | the foreground there, otherwise DefaultFg |
| Terminal.Terminal.GetBackgroundColor | Terminal.cs:190-196 | the background there, otherwise DefaultBg |
| Editor.TrimStart | Machine/Shell.cs:93 | the suffix left after the leading white space: what went is all white space and what is left does not start with it |
| Editor.TrimEnd | Machine/Shell.cs:93 | the prefix left before the trailing white space: what went is all white space and what is left does not end with it |
| Editor.BlankIffTrimmedEmpty | Machine/Shell.cs:84-93 | IsNullOrWhiteSpace holds exactly when Trim gives the empty string; otherwise the trimmed line starts and ends with a non-white-space character |
| Editor.BlankTrimStart | Machine/Shell.cs:84-93 | TrimStart of a blank line is empty |
| Editor.TrimIdempotent | Machine/Shell.cs:93 | Trim is idempotent |
| Editor.ShowPrompt | Machine/Shell.cs:14-20 | ShowPrompt keeps the buffer, history and index and leaves a writable terminal |
| Editor.PromptLayout | Machine/Shell.cs:14-20 | the prompt column is 2 on a terminal at least two columns wide (1 otherwise) and the cursor is left there; on a wide terminal the cursor row reads "> " followed by blanks to the edge, so the padding does not wrap |
| Editor.PromptText | Machine/Shell.cs:16-17 | "\n> " leaves the cursor at the prompt column, after "> " on a wide terminal |
| Editor.RedrawLine | Machine/Shell.cs:133-138 | the redraw throws exactly when the buffer does not fit between the prompt column and the edge; otherwise the cursor row shows the buffer then blanks, no other row changes, the cursor goes to the requested column on the same row, and the editor fields are kept |
| Editor.InsertAtCursor | Machine/Shell.cs:28-36 | a typed character goes into the buffer at the cursor and the cursor moves past it; this throws exactly when the longer buffer would not fit; the editor invariant is kept |
| Editor.DrainKeeps | Machine/Shell.cs:24-39 | the queue loop keeps the editor invariant, the history, the index, the prompt column and the cursor row |
| Editor.TypingAppends | Machine/Shell.cs:24-39 | typing at the end of the line appends the characters in order and the cursor follows them; this throws exactly when they run past the edge |
| Editor.DrainStep | Machine/Shell.cs:26-38 | the first turn of the queue loop inserts the first code and continues with the rest |
| Editor.AppendAtEnd | Machine/Shell.cs:28-36 | one character typed at the end of the line is appended and the cursor follows it |
| Editor.ChainChars | Machine/Shell.cs:24-39 | appending the first typed character and then the rest is appending all of them |
| Editor.BackspaceRemoves | Machine/Shell.cs:45-55 | on a line that fits, backspace past the prompt column on a non-empty buffer removes the character before the cursor and moves the cursor back one; otherwise it changes nothing; it never throws |
| Editor.ArrowsRoundTrip | Machine/Shell.cs:64-77 | Left and Right keep the cursor inside [offset, offset + length], stop at the ends, and undo each other when not stopped |
| Editor.HistoryStep | Machine/Shell.cs:115-130 | a step does nothing on an empty history or below entry 0; otherwise the index moves by direction and is capped at Count |
| Editor.NavigateLoads | Machine/Shell.cs:113-138 | a step that happens loads the entry (or "" past the end), shows it on the cursor row and puts the cursor after it; it throws only when that line does not fit |
| Editor.RecallThreeLines | Machine/Shell.cs:113-131 | after L1, L2, L3 are submitted, three Ups give L3, L2, L1 and three Downs give L2, L3, "" with the index back at 3 |
| Editor.ReportLines | Machine/Shell.cs:98-108 | nothing is written for success with a null value; otherwise "=> v" or "Error: m" on a line of its own |
| Editor.SubmitBlank | Machine/Shell.cs:82-88 | a blank buffer executes nothing (the result does not depend on the executor) and keeps the buffer, history and index |
| Editor.SubmitLine | Machine/Shell.cs:90-110 | a non-blank buffer becomes the newest history entry untrimmed, the index moves past it, the buffer empties, only the non-empty trimmed line reaches the executor, and a fresh prompt follows |
| Editor.EnterFirst | Machine/Shell.cs:41-77 | Enter takes precedence over every other control key of the frame |
| Editor.TickKeeps | Machine/Shell.cs:22-78 | a frame that does not throw keeps the editor invariant: the cursor stays between the prompt column and the end of the buffer, and the buffer and history hold only typeable characters |
| Editor.SubmitKeeps | Machine/Shell.cs:80-111 | Enter keeps the editor invariant |
| Editor.BackspaceKeeps | Machine/Shell.cs:45-55 | backspace keeps the editor invariant whenever it does not throw |
| Shell.Shell.constructor | Machine/Shell.cs:9-12 | empty buffer, empty history, index -1, prompt column 0 |
| Shell.Shell.ShowPrompt | Machine/Shell.cs:14-20 | the fields and the terminal become Editor.ShowPrompt of the old state |
| Shell.Shell.Redraw | Machine/Shell.cs:33-35 | the inline redraw throws exactly when Editor.Redraw does, and otherwise has its effect |
| Shell.Shell.RedrawInputLine | Machine/Shell.cs:133-138 | the redraw with the cursor put after the buffer |
| Shell.Shell.NavigateHistory | Machine/Shell.cs:113-131 | the fields and the terminal become Editor.Navigate of the old state, or the method reports the throw |
| Shell.Shell.ExecuteLine | Machine/Shell.cs:80-111 | the fields and the terminal become Editor.Submit of the old state |
| Shell.Shell.WriteReport | Machine/Shell.cs:98-108 | the terminal receives the report text, if there is one, and nothing else changes |
| Shell.Shell.DrainCharacters | Machine/Shell.cs:24-39 | the while loop over the queue does what Editor.Drain does, including where it throws |
| Shell.Shell.InsertChar | Machine/Shell.cs:28-36 | one printable key does what Editor.Insert does |
| Shell.Shell.ProcessInput | Machine/Shell.cs:22-78 | one frame does what Editor.Tick does, including where it throws |
| Shell.Shell.DeleteBeforeCursor | Machine/Shell.cs:45-55 | backspace does what Editor.Backspace does |
| Shell.Shell.CursorLeft | Machine/Shell.cs:64-70 | the left arrow does what Editor.MoveLeft does |
| Shell.Shell.CursorRight | Machine/Shell.cs:71-77 | the right arrow does what Editor.MoveRight does |
| Paths.TrimStartSpec | System/IO/Path.cs:31 | TrimStart('/') removes exactly the leading run of '/' |
| Paths.TrimEndSpec | System/IO/Path.cs:31 | TrimEnd('/') removes exactly the trailing run of '/' |
| Paths.TrimSeparatorsSpec | System/IO/Path.cs:91 | TrimEnd('/', '\\') removes exactly the trailing run of separators |
| Paths.LastIndexOf | System/IO/Path.cs:40 | the last index holding the character, -1 exactly when there is none |
| Paths.Replace | System/IO/Path.cs:31 | every `from` becomes `to` and nothing else changes |
| Paths.AfterIsLastComponent | System/IO/Path.cs:40 | the part after the last separator is a suffix without it, and is the whole string or follows a separator |
| Paths.NormalizeHasNoBackslash | System/IO/Path.cs:29-33 | the normalized path has no '\\' and is no longer than the user path |
| Paths.NormalizeStripsSlashes | System/IO/Path.cs:29-33 | a user path without '\\' normalizes to one that neither starts nor ends with '/' |
| Paths.TrailingBackslash | System/IO/Path.cs:31 | trimming precedes replacement: "a\\" maps to "./Files/a//" |
| Paths.DataFileInsideHostDirectory | System/IO/Path.cs:29-42 | the host directory is a proper prefix of the data file path, which continues with "__" and the last component, so it contains "/__" |
| Paths.DataFileName | System/IO/Path.cs:37-42 | the data file name has no '/' or '\\' and is the last component of the normalized path |
| Paths.ToStringRoundTrip | System/IO/Path.cs:46-119 | ToString gives back the path given to the one-argument constructor |
| Paths.JoinHasOneSlash | System/IO/Path.cs:51-54 | the join is the parent less its trailing '/', one '/', and the child less its leading '/' |
| Paths.JoinNormalizes | System/IO/Path.cs:29-54 | the normal form of a joined path is the parent's and child's normal forms with one '/' between them |
| Paths.ChildInsideParent | System/IO/Path.cs:29-54 | a child's host directory is the parent's host directory followed by the child's normal form |
| Paths.List | System/IO/Path.cs:79-98 | one child path per reported subdirectory, in order, each the join of the path and the subdirectory's name |
| Paths.ChildNameIsLastComponent | System/IO/Path.cs:91-93 | the derived name has no '/', has no '\\' either when the trimmed path has no '/', and is a suffix of the trimmed path |
| Paths.ListedNameRoundTrip | System/IO/Path.cs:81-94 | a subdirectory `<host directory><name>` with any trailing separators is listed under `name` |
| Uuid.BigEndianBound | System/Utils/GUID.cs:74-75 | a big-endian reading of n bytes is below 256^n |
| Uuid.Octets2 | System/Utils/GUID.cs:52-53 | `(byte)(v >> 8), (byte)v` read big-endian give v mod 2^16 |
| Uuid.Octets4 | System/Utils/GUID.cs:47-50 | the four shifted bytes read big-endian give v mod 2^32 |
| Uuid.Octets6 | System/Utils/GUID.cs:23-28 | the six shifted bytes of the ship time read big-endian give it mod 2^48 |
| Uuid.Int128Of | System/Utils/GUID.cs:66 | the signed reading lies in [-2^127, 2^127), is the bytes' big-endian value mod 2^128, and is negative exactly when byte 0 >= 0x80 |
| Uuid.Int128Bytes | System/Utils/GUID.cs:66 | every byte reads back from the number at its big-endian position |
| Uuid.Int128Fields | System/Utils/GUID.cs:66-72 | bits 76-79 are the high nibble of byte 6, bits 62-63 the top bits of byte 8, and the top 48 bits are bytes 0-5 |
| Uuid.HyphenatedLayout | System/Utils/GUID.cs:67 | 36 characters, '-' at 8, 13, 18 and 23, and the groups are the hex of bytes 0-3, 4-5, 6-7, 8-9 and 10-15 |
| Uuid.HexOfValue | System/Utils/GUID.cs:79-80 | the hex text of some bytes has their big-endian value |
| Uuid.ParseHex | System/Utils/GUID.cs:67 | a successful parse gives bytes whose hex text is the input |
| Uuid.HexRoundTrip | System/Utils/GUID.cs:67 | parsing the hex text of bytes gives the bytes back |
| Uuid.ParseHyphenated | System/Utils/GUID.cs:67 | a successful parse gives 16 bytes whose hex text is the digits of the input |
| Uuid.ParseHyphenatedRoundTrip | System/Utils/GUID.cs:67 | parsing the 8-4-4-4-12 text of 16 bytes gives them back |
| Uuid.StampDigits | Machine/Peripherals/GUID.cs:15-16 | the text's digit 14 is the high nibble of byte 6 and digit 19 the high nibble of byte 8 |
| Uuid.TimestampText | Machine/Peripherals/GUID.cs:8-30 | the first twelve digits spell the big-endian value of bytes 0-5 |
| Uuid.Version4Bytes | System/Utils/GUID.cs:11-18 | byte 6 takes version 4 over the random low nibble, byte 8 takes variant `10` over the random low six bits, and every other byte is the random byte |
| Uuid.Version7Bytes | System/Utils/GUID.cs:20-33 | bytes 0-5 hold the ship time mod 2^48 big-endian, byte 6 takes version 7 and byte 8 variant `10`, and the rest are the random bytes |
| Guid.Guid.ToUInt | System/Utils/GUID.cs:66 | the signed Int128 whose bit pattern is the bytes big-endian; negative exactly when byte 0 >= 0x80 |
| Guid.Guid.ToHex | System/Utils/GUID.cs:67 | 36 characters that parse back to the bytes |
| Guid.Guid.ToString | System/Utils/GUID.cs:69 | the hex text, which parses back to the bytes |
| Guid.Guid.ToByteArray | System/Utils/GUID.cs:68 | a fresh array equal to the bytes |
| Guid.Guid.Version | System/Utils/GUID.cs:71 | a nibble |
| Guid.Guid.Variant | System/Utils/GUID.cs:72 | two bits |
| Guid.NumberBytes | System/Utils/GUID.cs:66-77 | every byte reads back from ToUInt at its big-endian position; Family is byte 7 and Node byte 9 of the number |
| Guid.NumberFields | System/Utils/GUID.cs:66-72 | Version is bits 76-79 of ToUInt and Variant bits 62-63 |
| Guid.NumberTop | System/Utils/GUID.cs:66-75 | High * 2^16 + Low is the top 48 bits of ToUInt |
| Guid.TextGroups | System/Utils/GUID.cs:67-80 | HighHex and LowHex are ToHex[0..8] and ToHex[9..13] |
| Guid.TextFamily | System/Utils/GUID.cs:67-81 | FamilyHex is ToHex[16..18] and ToHex[14] is the version digit |
| Guid.TextNode | System/Utils/GUID.cs:67-82 | NodeHex is ToHex[21..23] |
| Guid.TextValues | System/Utils/GUID.cs:74-82 | each hex accessor spells its field's value |
| Guid.V4 | System/Utils/GUID.cs:11-18 | Version 4 and Variant 2, the low bits of bytes 6 and 8 and every other byte kept from the random input |
| Guid.V7 | System/Utils/GUID.cs:20-33 | bytes 0-5 and the top 48 bits of ToUInt are the ship time mod 2^48, Version 7, Variant 2, and the random bytes fill the rest |
| Guid.V8 | System/Utils/GUID.cs:43-64 | High, Low, Family and Node read back the arguments; bytes 6 and 8 are exactly 0x80, so Version 8 and Variant 2; only bytes 10-15 are random |
| Guid.V8Fields | System/Utils/GUID.cs:47-77 | the ten bytes V8 writes read back as the four fields and the two stamps |
| PeripheralGuid.BytesToGuid | Machine/Peripherals/GUID.cs:7-8 | 36 characters that parse back to the bytes |
| PeripheralGuid.GuidV4 | Machine/Peripherals/GUID.cs:10-19 | the text parses to the version 4 bytes; digit 14 is '4' and digit 19 one of 8, 9, a, b |
| PeripheralGuid.GuidV7 | Machine/Peripherals/GUID.cs:21-37 | the text parses to the version 7 bytes; its first twelve digits spell the ship time mod 2^48, digit 14 is '7' and digit 19 one of 8, 9, a, b |
| PeripheralGuid.GuidV8 | Machine/Peripherals/GUID.cs:39-62 | None (the indexing throws) exactly when a span is too short; otherwise the bytes come from the spans with version 8 and variant `10` stamped over bytes 6 and 8, and the rest are random |
| PeripheralGuid.Version8Bytes | Machine/Peripherals/GUID.cs:41-59 | the byte layout of GUIDv8 once every span is long enough |
| PeripheralGuid.VariantDigit | Machine/Peripherals/GUID.cs:16 | a byte with variant `10` shows 8, 9, a or b as its first digit |
| PeripheralDevice.GuidV4 | Machine/Peripherals/Device.cs:7-14 | a signed Int128 with 0100 in bits 76-79 and 10 in bits 62-63, the random bytes at their big-endian positions, bytes 6 and 8 being the stamped random bytes 6 and 8 (their low four and six bits kept), negative exactly when the first random byte is >= 0x80 |
| PeripheralDevice.GuidV7 | Machine/Peripherals/Device.cs:16-34 | the top 48 bits are the ship time mod 2^48 (negative exactly when its bit 47 is set), 0111 in bits 76-79, 10 in bits 62-63, bytes 6 and 8 being the stamped random bytes 0 and 2 (their low four and six bits kept), and the other random bytes at their positions |
| PeripheralDevice.LeadingBit | Machine/Peripherals/Device.cs:21-33 | the top bit of six big-endian bytes is the top bit of the first byte |
| Devices.Registry.constructor | System/Peripherals/Device.cs:8 | the registry starts empty |
| Devices.Device.constructor | System/Peripherals/Device.cs:21-30 | the device is appended to the registry with earlier entries unchanged, the metadata is stored verbatim, Slot is its position mod 256, Type is the type argument, and the identifier is version 8 and variant 2 with High and Low 0 |
| Devices.SlotsRepeat | System/Peripherals/Device.cs:27-32 | two registered devices share a slot exactly when their positions differ by a multiple of 256 |

## Left out

- Window.cs is not part of this model: font loading, rendering, cursor blinking and the frame loop. `ProcessScrolling` is key polling over PageUp and PageDown.
- Key decoding is left out. GetCharPressed, IsKeyPressed and IsKeyPressedRepeat are not defined in any file of this model. Each frame's input is a `Keys` value: the queued character codes, plus one flag per control key that is already "pressed or repeated".
- Sandbox.Execute is a compiler and runtime call. It is a parameter of type `string -> ExecResult`, and any output it writes to the terminal is not modelled.
- Disk I/O is left out: Path.Read, Path.Write, Path.Move, Directory.Exists and Directory.GetDirectories. `Paths.List` receives the directory listing as a parameter, an empty one standing for a missing directory.
- The UTF-8 conversions of `Data` are not modelled.
- `Host.Random` and `World.ShipTime` are not defined in any file of this model. Random bytes are a `seq<Byte>` parameter of the needed length. The ship time is any integer, and every byte taken from it is its floor-shifted value mod 256, as a two's-complement shift would give.
- Device.Initialize is empty and has no model.
- System/Terminal.cs, Program.cs, Machine/Host.cs, System/Serial.cs, System/Peripherals/Reactor.cs and SandboxAssemblyBuilder.cs are not part of this model. They are glue, driver code, console I/O or floating-point stubs.
- Screen.Write: its own contract only bounds the content mark and the viewport. Their exact values (content mark max(ContentLines, CursorY+1), viewport the bottom computed before the text, lowered once per scroll) are proved for text that fits in the cursor row (`WriteInRow`); for newlines on the last row, `FeedsAtBottom` states how the character loop inside Write lowers both marks. Other texts get only the bounds.
- Terminal.Terminal.Write: requires a grid at least one column wide and a non-negative cursor column. The source throws on the first printable character otherwise, and that throw is not modelled.
- Terminal.Terminal.Write: a Dafny `char` is a Unicode scalar value, while the source's `foreach (char c in text)` walks UTF-16 code units. A character outside the Basic Multilingual Plane (for instance in an executor's `=> v` or `Error: m` text) takes two cells in the source and one in the model, and the cursor ends one column further in the source.
- Terminal.Terminal.constructor: requires a width of at least 0, where the source's array allocation would throw on a negative one. The default arguments (80 columns, 25 rows) are not modelled; the only call site, in Window.cs, passes both sizes.
- Terminal.Terminal.GetChar: requires the class invariant (arrays of 1000 x Width rows in sync with the model). The source relies on its constructor for the same.
- Shell.Shell.ProcessInput: the state after a throw is left unspecified. The exception ends the frame update, and nothing observes the half-updated fields.
- Registry: `Device.Devices` is a static list, modelled as one `Registry` object passed to the constructor. A device's fields are never aliased elsewhere.
