# Festive request handlers: pure cores

This project models, in Dafny, the four pure cores behind a set of festive
HTTP handlers written in Rust:

- **Tile board** (`src/day12.rs`): an N x N board of `Empty`/`Cookie`/`Milk`
  tiles. The model covers construction, `reset`, and the text `Display`
  writes: each row is a wall glyph, the row's tile glyphs and a wall glyph,
  then a bottom row of N + 2 walls. Module `TileBoard`.
- **Address cipher** (`src/day2.rs`): `dest` adds a key to an IPv4 address
  octet by octet, wrapping mod 256. `key` subtracts the source from the
  destination the same way. `dest6`/`key6` XOR IPv6 addresses octet by
  octet. Addresses are their integer bits, read and written as big-endian
  octets. Module `AddressCipher`.
- **Present and ornament state machines** (`src/day23.rs`): a colour cycles
  red → blue → purple → red and an ornament toggles on/off. Each has a
  printer, a parser and a handler that returns 418 for unknown names. Module
  `Ornaments`.
- **Gift-order manifest** (`src/day5.rs`): the status/body decision of the
  `manifest` handler, run over an already-parsed manifest, and the filter
  that keeps only well-formed orders. Module `ManifestOrders`.

`Outcomes` holds the `Option`/`Result` shapes. `Text` holds decimal
formatting (`u32` `Display`) and line joining/splitting, each with its
inverse.

The tile glyphs are the emoji written in `src/day12.rs`: U+2B1C for the
wall, U+2B1B for an empty tile, U+1F36A for a cookie and U+1F95B for milk.
`src/day12.rs` contains no token placement, player turns or win/draw
detection, and neither does the model.

## Model

| member | source | states |
|---|---|---|
| TileBoard.Glyph | src/day12.rs:22-30 | each tile has a glyph that is neither the wall (`Wall`, U+2B1C) nor a line break and reads back as that tile |
| TileBoard.GlyphInjective | src/day12.rs:22-30 | distinct tiles have distinct glyphs |
| TileBoard.New | src/day12.rs:44-51 | a new board has N rows of N tiles, every tile `DefaultTile`, which is `Empty` |
| TileBoard.Reset | src/day12.rs:53-59 | after reset every tile is `Empty`, the dimensions are unchanged and the board equals a new one, so resetting twice equals resetting once |
| TileBoard.Render | src/day12.rs:62-82 | the rendering has (N + 1)(N + 3) characters |
| TileBoard.RenderLayout | src/day12.rs:64-78 | line r of the rendering is wall, the glyphs of row r in column order, wall, line break; the last line is N + 2 walls and a line break |
| TileBoard.RenderTileAt | src/day12.rs:67-69 | tile (r, c) is drawn at character r(N + 3) + 1 + c |
| TileBoard.RenderLines | src/day12.rs:64-79 | split on line breaks, the rendering is the N row lines, the bottom wall, and nothing after the last line break |
| TileBoard.RenderInjective | src/day12.rs:62-82 | two valid boards with the same rendering are equal, whatever their sizes |
| TileBoard.FreshBoardRendersEmptyBoard | src/day12.rs:104-120 | a fresh 4 x 4 board renders exactly as the `EMPTY_BOARD` test constant |
| AddressCipher.ZipWith | src/day2.rs:16-18 | zipping stops at the shorter input and applies the octet operation position by position |
| AddressCipher.TryIntoArray | src/day2.rs:20-23 | conversion to a fixed-size array succeeds exactly when the length matches, and keeps the octets |
| AddressCipher.OctetXor | src/day2.rs:44-46 | XOR with the same octet twice gives back the original |
| AddressCipher.XorCancels | src/day2.rs:44-46 | a XOR (a XOR b) = b for all naturals |
| AddressCipher.XorCommutes | src/day2.rs:44-46 | XOR is commutative |
| AddressCipher.WrappingAdd | src/day2.rs:17 | the octet sum is the true sum, less 256 when it overflows |
| AddressCipher.WrappingSub | src/day2.rs:31 | the octet difference is the true difference, plus 256 when it underflows |
| AddressCipher.Octets4 | src/day2.rs:16 | an IPv4 address has 4 octets, whose big-endian value is its bits (also used at line 30) |
| AddressCipher.Octets16 | src/day2.rs:44 | an IPv6 address has 16 octets, whose big-endian value is its bits (also used at line 58) |
| AddressCipher.FromBeBytes | src/day2.rs:21 | k octets read big-endian give a number below 256^k |
| AddressCipher.ToBeBytes | src/day2.rs:21 | writing a number as big-endian octets gives the right width, and reading them back gives the number |
| AddressCipher.BeBytesRoundTrip | src/day2.rs:21 | reading big-endian octets and writing them back gives the same octets |
| AddressCipher.FromOctets4 | src/day2.rs:21 | `from_bits(from_be_bytes(bytes))` is the IPv4 address whose octets are `bytes`, in order |
| AddressCipher.FromOctets16 | src/day2.rs:49 | likewise for IPv6 and 16 octets |
| AddressCipher.Dest | src/day2.rs:12-24 | never panics; octet i of the result is (from[i] + key[i]) mod 256 |
| AddressCipher.Key | src/day2.rs:26-38 | never panics; octet i of the result is (to[i] - from[i]) mod 256 |
| AddressCipher.Dest6 | src/day2.rs:40-52 | never panics; octet i of the result is from[i] XOR key[i] |
| AddressCipher.Key6 | src/day2.rs:54-66 | never panics; octet i of the result is to[i] XOR from[i] |
| AddressCipher.KeyUndoesDest | src/day2.rs:12-38 | key(from, dest(from, k)) = k |
| AddressCipher.DestUndoesKey | src/day2.rs:12-38 | dest(from, key(from, to)) = to |
| AddressCipher.Key6UndoesDest6 | src/day2.rs:40-66 | key6(from, dest6(from, k)) = k |
| AddressCipher.Dest6UndoesKey6 | src/day2.rs:40-66 | dest6(from, key6(from, to)) = to |
| AddressCipher.Dest6Commutes | src/day2.rs:44-46 | dest6(a, b) = dest6(b, a) |
| Ornaments.NextColor | src/day23.rs:11-17 | the next colour is one step further on a cycle of three and always differs from the current one |
| Ornaments.ColorCycle | src/day23.rs:11-17 | three steps return to the start colour; two steps do not |
| Ornaments.ParseColor | src/day23.rs:46-57 | a string parses exactly when it is some colour's name, and then to that colour; otherwise the error is "meh" |
| Ornaments.ParseColorName | src/day23.rs:20-28 | printing a colour with `ColorName` and parsing the text gives the colour back |
| Ornaments.TemplateInputOf | src/day23.rs:30-37 | `curr` names the colour, `next` names its successor, and the two differ |
| Ornaments.Present | src/day23.rs:106-114 | "red"/"blue"/"purple" give a template whose current colour is the input and whose next colour differs; anything else gives 418 |
| Ornaments.NextState | src/day23.rs:64-71 | toggling always changes the state |
| Ornaments.NextStateInvolution | src/day23.rs:64-71 | toggling twice gives the original state |
| Ornaments.ParseState | src/day23.rs:73-83 | a string parses exactly when it is some state's name, and then to that state; otherwise the error is "ding" |
| Ornaments.ParseStateName | src/day23.rs:85-92 | printing a state with `StateName` and parsing the text gives the state back |
| Ornaments.Ornament | src/day23.rs:116-134 | only "on"/"off" are accepted, else 418; the class suffix is " on" exactly when the input is "on" and empty exactly when it is "off"; `n` is passed through; the next state is the toggled one |
| ManifestOrders.DecodeOrder | src/day5.rs:11-15 | a table decodes exactly when its `item` is a string (or date-time) and its `quantity` is an integer in 0..2^32; a two-element array decodes exactly when its elements are such values, in that order; the order holds those values; nothing else decodes |
| ManifestOrders.DeserializeOrders | src/day5.rs:25-42 | the filter never produces more orders than raw entries |
| ManifestOrders.DeserializeOrdersMembers | src/day5.rs:33-41 | an order is kept exactly when some raw entry decodes to it |
| ManifestOrders.DeserializeOrdersAppend | src/day5.rs:35-39 | filtering a concatenation is the concatenation of the filtered parts, so relative order is kept and one bad entry cannot affect the others |
| ManifestOrders.DeserializeOneOrder | src/day5.rs:36-38 | a single entry is kept, decoded, exactly when it decodes, and is otherwise skipped without error |
| ManifestOrders.DeserializeAllValid | src/day5.rs:35-39 | when every entry is well-formed, all are kept at their positions |
| ManifestOrders.ToyCarExample | src/day5.rs:94-114 | the test manifest's orders filter to the single toy-car order |
| ManifestOrders.FormatOrder | src/day5.rs:70-72 | an order line is the item, ": ", then decimal digits with no leading zero that read back as the quantity |
| ManifestOrders.OrderLines | src/day5.rs:70-72 | one formatted line per order, in order |
| ManifestOrders.HandleManifest | src/day5.rs:44-85 | a wrong content type (`WrongContentType`: a header present and not exactly `application/toml`) gives 400 with an empty body, and this is the only empty 400. Otherwise an unparseable manifest gives 400 "Invalid manifest". Otherwise a package without the magic keyword in a local keyword list (`HasMagicWord`) gives 400 "Magic keyword not provided". 200 holds exactly when the keyword is present and the package's orders (`PackageOrders`: none without metadata or `orders`) include a valid one, with the order lines joined by line breaks. Every remaining case gives 204 with an empty body |
| ManifestOrders.ManifestBodyLines | src/day5.rs:74-76 | if no item contains a line break, splitting a 200 body on line breaks gives back exactly the formatted orders |
| Text.DecimalString | src/day5.rs:71 | a quantity's text is a non-empty string of digits with no leading zero |
| Text.DecimalRoundTrip | src/day5.rs:71 | reading a quantity's decimal text gives the quantity back |
| Text.SplitJoin | src/day5.rs:75 | splitting a join of separator-free lines gives the lines back |
| Text.JoinSplit | src/day5.rs:75 | joining the pieces of a split gives the original string back |

## Left out

- The async `board` and `reset` handlers and the shared `RwLock` around the board are concurrency plumbing. Only the pure board operations are modelled. The gap between the write and the read in `reset` (`src/day12.rs:93-97`) is therefore not modelled.
- Token placement, column-full handling and win/draw detection are not modelled because `src/day12.rs` has none of them.
- IPv4/IPv6 text parsing and printing are standard-library calls. So are the `unwrap` panics on missing or malformed query fields. Addresses enter and leave the model as their bits and octets.
- TOML and Cargo manifest parsing is done by external libraries. The handler gets `None` for any body those libraries reject. That includes a manifest whose `package.metadata.orders` is not an array, because `Vec<Value>` fails to deserialize.
- The header-name lookup is done by `HeaderMap`. The handler gets the first `Content-Type` value, if any, as a string.
- The Askama templates (`templates/present.html`, `templates/ornament.html`) are not part of this model. Handlers return the record they hand to the template instead of HTML.
- The rate limiter (`src/day9.rs`) is left out: it uses clocks, floating point and an async lock.
- JWT handling (`src/day16.rs`) is left out: it is foreign cryptography plus cookie headers.
- The stub handlers (`src/day19.rs`) and the routing and constant responses (`src/main.rs`, `src/day1.rs`) are left out: they hold no logic to model.
- ManifestOrders.DecodeOrder: only serde's failure or success is modelled, not its error messages. A TOML date-time is taken to reach a `String` field as its text. TOML floats and booleans never decode as an item or a quantity.
