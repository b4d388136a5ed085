# Colour palette maths, in Dafny

This project models the colour-math module of a random colour palette
generator, `src/shared/colorPalette.ts`, together with its compiled JavaScript
twin `src/shared/colorPalette.js`. The twin has the same logic line for line,
so one model stands for both. The module does four things:

- **Random colours.** `randomHexColor` draws `Math.floor(Math.random() * 0xffffff)`.
  It writes the result as six zero-padded upper-case hex digits after `#`.
  `generatePalette(count)` makes `count` such colours.
- **Hex to HSL.** `hexToHSL` removes the first `#` and doubles each digit of
  3-digit shorthand. It parses the digits, then splits red, green and blue out
  by shift and mask. It returns hue, saturation and lightness, each rounded.
- **HSL to hex.** `hslToHex` uses the chroma / hue-rotation formula
  `k(n) = (n + h/30) % 12`, `a = s·min(l, 1−l)`. Each channel is rounded to a
  byte and written as two hex digits, and the whole string is upper-cased.
- **Related palettes.** `generateRelatedPalette` turns the base colour into
  HSL once. For analogous, complementary, triadic and tetradic it turns the hue
  by each offset of a fixed five-entry table. For monochromatic it moves the
  lightness by each offset, clamped to [0, 100]. Any other style gives back
  `[baseHex]`. `paletteStyleDescriptions` is a fixed table.

Files:

- `js_runtime.dfy` (module `JsRuntime`) states the JavaScript built-ins the
  module uses, on exact numbers. These are `Math.round`, `%` (which truncates
  toward zero), `>>` and `& 255`, `toString(16)`, `padStart`, `toUpperCase`,
  `parseInt(s, 16)`, and `replace('#', '')`.
- `color_palette.dfy` (module `ColorPalette`) holds the module itself and the
  properties proved about it.

The HSL formulas run on `real`, and `Math.round(x)` is `(x + 1/2).Floor`.
Hex values and bytes are `int`. Where `Math.random()` is called, its value
`u ∈ [0, 1)` is a parameter.

Three behaviours of the code are worth stating:

- `hexToHSL` can return hue 360, not only [0, 360): `#FF0001` gives 360
  (`HueReaches360`).
- `randomHexColor` never produces `#FFFFFF`. `Math.floor(u * 0xffffff)`
  stays at or below 0xFFFFFE (`RandomHexColorNeverWhite`).
- `hslToHex` does not clamp its channels. For saturation and lightness in
  [0, 100] no clamp is needed, because every channel is proved to be a byte.

## Model

| member | source | states |
|---|---|---|
| JsRuntime.Round | src/shared/colorPalette.ts:35 | Math.round picks the integer n with n − ½ ≤ x < n + ½ (nearest, halves up) |
| JsRuntime.RemInt | src/shared/colorPalette.ts:56 | `x % m` on integers is x less m times the quotient truncated toward zero; it lies in [0, m) for x ≥ 0 and in (−m, 0] for x < 0 |
| JsRuntime.Rem12 | src/shared/colorPalette.ts:40 | `x % 12` on numbers is x less 12 times its truncated quotient, with the sign of x and magnitude below 12 |
| JsRuntime.Rem12Shift | src/shared/colorPalette.ts:40 | adding 12 to a non-negative dividend leaves `% 12` unchanged |
| JsRuntime.ParseHex | src/shared/colorPalette.ts:18 | parseInt of k hex digits is below 16^k |
| JsRuntime.ParseHexAppend | src/shared/colorPalette.ts:18 | reading a + b is reading a shifted left by \|b\| digits, plus reading b |
| JsRuntime.NatToHex | src/shared/colorPalette.ts:3 | toString(16) gives lower-case hex digits with no leading zero that parse back to the number |
| JsRuntime.NatToHexLength | src/shared/colorPalette.ts:3 | a number below 16^k needs at most k digits |
| JsRuntime.ToHexString | src/shared/colorPalette.ts:44 | toString(16) writes a non-negative number as its digits and a negative one with a leading '-' |
| JsRuntime.PadStart | src/shared/colorPalette.ts:44 | padStart makes the string the wanted width with pad characters in front and keeps the original string as the suffix |
| JsRuntime.ToUpper | src/shared/colorPalette.ts:46 | toUpperCase keeps the length, turns each hex digit into an upper-case digit of the same value and leaves non-letters alone |
| JsRuntime.ParseHexUpper | src/shared/colorPalette.ts:4 | upper-casing a digit string keeps its value |
| JsRuntime.FirstIndex | src/shared/colorPalette.ts:16 | the position replace('#', '') acts on: a '#' with no '#' before it |
| JsRuntime.RemoveFirst | src/shared/colorPalette.ts:16 | replace('#', '') leaves a string without '#' as it is; otherwise it removes the first '#' and keeps every other character in order, so the result is one shorter |
| JsRuntime.ShiftRight | src/shared/colorPalette.ts:19-20 | `x >> k` on a non-negative 31-bit value is the quotient q with q·2^k ≤ x < (q + 1)·2^k |
| JsRuntime.And255 | src/shared/colorPalette.ts:19-21 | `x & 255` is a byte that differs from x by a multiple of 256 |
| JsRuntime.PaddedHex | src/shared/colorPalette.ts:3-4 | toString(16), padStart(w, '0') and toUpperCase on a value below 16^w give exactly w upper-case digits that parse back to the value |
| ColorPalette.Drawn | src/shared/colorPalette.ts:3 | Math.floor(u · 0xffffff) for u ∈ [0, 1) is the integer n with n ≤ u · 0xFFFFFF < n + 1, and it lies in [0, 0xFFFFFE] |
| ColorPalette.RandomHexColor | src/shared/colorPalette.ts:2-5 | the result is '#' plus six upper-case hex digits that parse back to the drawn integer |
| ColorPalette.RandomHexColorCovers | src/shared/colorPalette.js:10-13 | every integer in [0, 0xFFFFFE] is produced by some Math.random() value |
| ColorPalette.RandomHexColorNeverWhite | src/shared/colorPalette.ts:3 | no Math.random() value yields "#FFFFFF" |
| ColorPalette.ArrayLength | src/shared/colorPalette.ts:9 | Array.from({ length: count }) has count elements for a non-negative count and none for a negative one |
| ColorPalette.GeneratePalette | src/shared/colorPalette.ts:8-10 | generatePalette(count) has max(count, 0) elements, each a well-formed colour produced by randomHexColor from its own draw |
| ColorPalette.ExpandedDigits | src/shared/colorPalette.ts:16-17 | after '#' removal and shorthand doubling, the parsed digits are 1 to 6 hex digits whose value is below 2^24 |
| ColorPalette.HexToRgb | src/shared/colorPalette.ts:18-21 | the shift-and-mask channels are bytes r, g, b with num = 65536·r + 256·g + b |
| ColorPalette.HexChannels | src/shared/colorPalette.js:19-25 | for six digits, with or without '#', red, green and blue are the first, second and third digit pairs |
| ColorPalette.ShorthandChannels | src/shared/colorPalette.ts:16-21 | for 3-digit shorthand each channel is 17 times its digit ("abc" reads as "aabbcc") |
| ColorPalette.CliAccepts | src/cli/index.ts:16 | whatever /^#?[0-9a-fA-F]{6}$/ accepts is valid hexToHSL input, and removing its first '#' leaves its last six characters |
| ColorPalette.CliInputIsValid | src/cli/index.ts:16 | every input the CLI's hex validator accepts is parsed by hexToHSL as exactly its six digits |
| ColorPalette.RedHue | src/shared/colorPalette.ts:29 | with red the largest channel and d the spread, (g − b)/d (+6 when g < b) lies in [0, 1] or [5, 6) |
| ColorPalette.GreenHue | src/shared/colorPalette.ts:30 | with green the largest channel, (b − r)/d + 2 lies in [1, 3] |
| ColorPalette.BlueHue | src/shared/colorPalette.ts:31 | with blue the largest channel, (r − g)/d + 4 lies in [3, 5] |
| ColorPalette.HueSixths | src/shared/colorPalette.ts:28-33 | the hue before the division by 6 lies in [0, 6] |
| ColorPalette.HueCaseOrderIrrelevant | src/shared/colorPalette.js:32-42 | when channels tie for the maximum, each tied channel's formula gives the same hue as the case the switch takes (red first, then green) |
| ColorPalette.HueFollowsDominantChannel | src/shared/colorPalette.ts:28-32 | the hue lies in the sector of the largest channel: red [5,6] ∪ [0,1], green [1,3], blue [3,5] (in sixths) |
| ColorPalette.Saturation | src/shared/colorPalette.ts:27 | for a non-grey colour both saturation formulas give a value in (0, 1] |
| ColorPalette.RgbToHsl | src/shared/colorPalette.ts:22-35 | the rounded h is in [0, 360] and s, l are in [0, 100]; a grey gives h = s = 0 and l = round(100·r/255) |
| ColorPalette.HexToHSL | src/shared/colorPalette.ts:15-36 | on valid hex input, h ∈ [0, 360] and s, l ∈ [0, 100]; equal channels give h = s = 0 |
| ColorPalette.HueDegreesFollowDominantChannel | src/shared/colorPalette.ts:28-35 | the returned hue in degrees lies in the largest channel's sector: red [300, 360] ∪ [0, 60], green [60, 180], blue [180, 300] |
| ColorPalette.HueReaches360 | src/shared/colorPalette.ts:29-35 | rgb(255, 0, 1) rounds to hue 360, so 360 is a possible hue |
| ColorPalette.HueRotation | src/shared/colorPalette.ts:40 | k(n) = (n + h/30) % 12 differs from n + h/30 by a whole number of 12s, and lies in [0, 12) when n + h/30 ≥ 0 and in (−12, 0] otherwise |
| ColorPalette.ChromaBounds | src/shared/colorPalette.ts:41 | for s, l ∈ [0, 100], a = s·min(l, 1 − l) satisfies 0 ≤ a ≤ l and a ≤ 1 − l |
| ColorPalette.Tent | src/shared/colorPalette.ts:43 | max(−1, min(k − 3, 9 − k, 1)) always lies in [−1, 1] |
| ColorPalette.ChannelLevel | src/shared/colorPalette.ts:39-43 | for s, l ∈ [0, 100], every channel lies in [l − a, l + a] ⊆ [0, 1] |
| ColorPalette.ChannelByte | src/shared/colorPalette.ts:44 | for s, l ∈ [0, 100], Math.round(255·color) is a byte in [0, 255] |
| ColorPalette.ByteDigits | src/shared/colorPalette.ts:44-46 | a byte written by toString(16).padStart(2, '0') and upper-cased is two upper-case digits that read back as the byte |
| ColorPalette.HexOfBytes | src/shared/colorPalette.ts:44-46 | three bytes, padded, joined after '#' and upper-cased, give a well-formed colour whose digit pairs read back as the bytes in order |
| ColorPalette.HslToHex | src/shared/colorPalette.ts:38-47 | for s, l ∈ [0, 100] (any h), the output is '#' plus six upper-case hex digits whose pairs are the rounded k(0), k(8) and k(4) channels |
| ColorPalette.HslToHexParsesBack | src/shared/colorPalette.js:47-57 | hslToHex output is valid hexToHSL input, and hexToHSL's shift-and-mask recovers the same three bytes |
| ColorPalette.HslToHexGrey | src/shared/colorPalette.ts:41-44 | with s = 0 all three bytes equal round(255·l/100) |
| ColorPalette.HslToHexHueTurn | src/shared/colorPalette.ts:40 | for h ≥ 0, hue h and hue h + 360 give the same colour string |
| ColorPalette.Offsets | src/shared/colorPalette.ts:56-72 | every style's offset table has exactly five entries |
| ColorPalette.ClampPercent | src/shared/colorPalette.ts:60 | Math.max(0, Math.min(100, x)) lies in [0, 100], equals x inside it, and is 0 below it and 100 above it |
| ColorPalette.Variants | src/shared/colorPalette.ts:54-73 | five variants. Hue styles (base h ≥ 0): each hue is in [0, 360) and congruent to base h + offset mod 360, with s and l copied. Monochromatic: h and s copied and l the clamped base l + offset |
| ColorPalette.BaseInVariants | src/shared/colorPalette.ts:56-72 | for h ∈ [0, 360) and l ∈ [0, 100], the base colour is the first hue variant and the middle monochromatic variant |
| ColorPalette.PaletteFromHsl | src/shared/colorPalette.js:63-79 | mapping hslToHex over the variants gives five colours, all well-formed when the base s and l are in range |
| ColorPalette.PaletteHueTurn | src/shared/colorPalette.ts:56-72 | a base hue h ≥ 0 and h + 360 give the same palette, for every style |
| ColorPalette.GenerateRelatedPalette | src/shared/colorPalette.ts:51-77 | each of the five styles gives exactly five well-formed colours, the hslToHex images of the variants of the base; any other style gives exactly [baseHex] |
| ColorPalette.HexExample | src/shared/colorPalette.ts:15-36 | #3498DB is valid input, has bytes (52, 152, 219) and is HSL(204, 70, 53) |
| ColorPalette.ComplementaryExample | src/shared/colorPalette.ts:62-65 | the complementary variants of HSL(204, 70, 53) have hues 204, 24, 354, 54 and 234 |
| ColorPalette.RedExample | src/shared/colorPalette.js:47-57 | HSL(0, 100, 50) encodes to the bytes (255, 0, 0) |
| ColorPalette.DescriptionsCoverStyles | src/shared/colorPalette.ts:79-85 | the description table has an entry for exactly the five styles, and no two entries are the same |

## Left out

- `Math.random()` is not modelled. The value it returns is a parameter of
  `RandomHexColor`, and `GeneratePalette` takes one value per element.
- Floating point: the model uses exact reals. Results that land exactly on
  a .5 rounding boundary may differ from IEEE-754 doubles.
- ColorPalette.HexToHSL: requires its input, after the first '#' is removed,
  to be 1 to 6 hex digits. In JavaScript, `parseInt` also accepts other text:
  it stops at the first non-digit, and gives NaN (read by `>>` as 0) when there
  is no digit at all. Seven digits stay below 2^28, so `>>` and `& 255` would
  still be exact, but the mask then drops red's top digit. Eight or more digits
  would also need the 32-bit wrap-around of `>>`, and very long ones double
  precision. The CLI only passes six-digit input (`CliInputIsValid`). The
  browser UI does not check its input: its free-text field
  (src/ui/CR_ui/src/App.tsx:34-37) goes straight to `generateRelatedPalette`
  (App.tsx:14). So text outside this precondition does reach `hexToHSL` in the
  shipped program, and the model says nothing about what it returns for such
  text.
- HSL components are integers. In JavaScript `hslToHex` accepts fractional
  numbers, but every caller in the module passes the integers `hexToHSL` returns.
- `toUpperCase` is modelled on ASCII letters only. The strings it sees hold
  only hex digits, '#' and '-'.
- Array.from with a fractional or huge `count` is not modelled; `count` is an integer.
- The styles are the five strings of `PaletteStyle`. The TypeScript type is
  not enforced at run time, so `GenerateRelatedPalette` takes any string and
  models the `default` branch.
- A round trip hex → HSL → hex is not claimed. The code does not promise one,
  because rounding HSL to integers loses information.
- The CLI (`src/cli/index.ts`, `src/cli/ascii.ts`) and the browser UI
  (`src/ui/CR_ui/src/App.tsx`) are prompts, terminal rendering, clipboard
  access and React state. They are not part of this model. Only the CLI's
  hex validator is used, as the input condition.
