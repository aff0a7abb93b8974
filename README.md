# Literature clock display — a Dafny model

The literature clock shows, once a minute, a quotation from a book that
mentions the current time. It runs on a 400 x 300 e-paper panel. The program
has one class, `QuoteDisplay` (`quote_display.py`), which works as follows:

- At start-up it loads one corpus file per minute of the day. Each file is
  named by its zero-padded `HH_MM` key.
- It then loops. Whenever the minute changes, it picks a random quote for
  that key, or a fixed placeholder for a key that has none.
- It normalises the quote's text. The `<br>` markers become newlines, and
  the first part, the stripped time phrase and the last part are joined
  with newlines.
- It picks one of three font sizes from the text's length. It then wraps the
  words greedily to the 400-pixel width.
- It centres the block of lines vertically in the top 280 pixels, and each
  line horizontally.
- It writes "title - author" at the bottom left.

This project models that logic and proves what it guarantees:

| module | file | what it holds |
|---|---|---|
| `PyStr` | `pystr.dfy` | the Python `str` operations the code uses: `isspace`, `split()`, `split('\n')`, `strip()`, `replace`, `join`; and `CountChar`, a reference count of one character against which the number of `split('\n')` pieces is stated |
| `Corpus` | `corpus.dfy` | quote records, the 1440 `HH_MM` keys, the placeholder record |
| `Wrap` | `wrap.dfy` | `wrap_text` as a loop proved against an independent description of the greedy wrap, which is shown to be unique |
| `Layout` | `layout.dfy` | normalisation, font-size tiers, text height, centring, the attribution line, the drawing of one frame |
| `Display` | `display.dfy` | the `QuoteDisplay` class: its fields, corpus loading, quote selection and one pass of the refresh loop |

Font measurements are parameters, given as integer-valued functions (the
`Metrics` datatype):
- the quote font's `getbbox(s)[2]`;
- `draw.textlength(s)`;
- the bottom of the author font's `textbbox`.

Three further inputs are also parameters:
- the file system: `read(key)` is the parsed content of a key's file, or
  `None` when the file is missing or fails to load;
- the clock: the hour and minute of one step;
- `random.choice`: the index it would pick.

## Model

| member | source | states |
|---|---|---|
| Corpus.TimeKey | quote_display.py:45 | definition of `"{:02d}_{:02d}".format(hours, mins)`; its properties are in Corpus.TimeKeyParses, Corpus.TimeKeyOfShape and Corpus.TimeKeyInjective |
| PyStr.Replace | quote_display.py:77 | definition of `str.replace`, scanning left to right without overlaps; its properties are in PyStr.ReplaceLeavesOut and PyStr.ReplaceAbsent |
| PyStr.JoinWith | quote_display.py:140 | definition of `sep.join(parts)`; its properties are in PyStr.SplitOnJoin and PyStr.SplitJoinWords |
| PyStr.JoinWords | quote_display.py:132-138 | definition of `" ".join(words)`, the text a line's words build up to; its properties are in PyStr.SplitJoinWords, PyStr.JoinWordsShape and PyStr.StripTrailingBlank |
| Layout.BreaksToNewlines | quote_display.py:77-79 | definition of the two replacements, `<br>` first; its properties are in Layout.NoBreakMarkersLeft and Layout.BreaksToNewlinesKeeps |
| Layout.FullQuote | quote_display.py:82 | definition of the assembled quote; its properties are in Layout.FullQuoteShape |
| Layout.BlockHeight | quote_display.py:145 | definition of `n * (size + 6) - 6`; its properties are in Layout.TextHeight and Layout.BlockInsideArea |
| Layout.BlockTop | quote_display.py:98 | definition of `(280 - h) // 2`; its properties are in Layout.BlockInsideArea and Layout.LayoutPlacement |
| Display.QuoteDisplay.ShownKey | quote_display.py:71 | definition of the key shown: the fixed time if set, else the clock's key; its use is stated by Display.QuoteDisplay.Step |
| PyStr.Split | quote_display.py:126 | every element of `text.split()` is a non-empty string without whitespace (whitespace is the full `str.isspace` set) |
| PyStr.SplitAtSpace | quote_display.py:126 | splitting at any whitespace character splits the two sides independently: `split()` never keeps a newline, so the `\n` separators of the assembled quote vanish |
| PyStr.SplitJoinWords | quote_display.py:126-140 | `" ".join(words).split()` gives back exactly the words |
| PyStr.JoinWordsShape | quote_display.py:132-138 | one or more words joined by single spaces are non-empty and start and end with a non-space character |
| PyStr.StripStart | quote_display.py:78 | `lstrip` removes only whitespace and leaves no leading whitespace |
| PyStr.StripEnd | quote_display.py:78 | `rstrip` removes only whitespace and leaves no trailing whitespace |
| PyStr.Strip | quote_display.py:78 | `strip` removes only leading and trailing whitespace; the result is empty or starts and ends with non-whitespace |
| PyStr.StripSlice | quote_display.py:78 | what `strip` keeps is the slice of the input between the two whitespace runs |
| PyStr.StripTrailingBlank | quote_display.py:134-138 | stripping a line of words with its trailing blank gives the words joined by single spaces |
| PyStr.SplitOn | quote_display.py:100 | `split('\n')` always yields at least one piece |
| PyStr.SplitOnCount | quote_display.py:144-145 | `split('\n')` yields one more piece than there are newlines |
| PyStr.SplitOnJoin | quote_display.py:100 | splitting a newline-join of newline-free pieces on `'\n'` gives back the pieces |
| PyStr.ReplaceLeavesOut | quote_display.py:77 | after `replace(target, '\n')`, any newline-free text that occurs in the result occurred in the input and is not `target` |
| PyStr.ReplaceAbsent | quote_display.py:77 | `replace` leaves a string without the target unchanged |
| Corpus.Pad2 | quote_display.py:45 | `"{:02d}"` of a number below 100 is two decimal digits that denote it |
| Corpus.TimeKeyParses | quote_display.py:43-45 | the key built for `hours, mins` has the `HH_MM` shape and names that hour and minute |
| Corpus.TimeKeyOfShape | quote_display.py:43-45 | every string of the `HH_MM` shape is the key of the time it names, and of its minute of the day |
| Corpus.TimeKeyInjective | quote_display.py:43-45 | different clock times get different keys |
| Corpus.KeysBelowCount | quote_display.py:43-45 | the first `n` iterations of the key loops produce `n` distinct keys |
| Corpus.AllKeys | quote_display.py:43-45 | the key loops produce 1440 distinct keys, exactly the strings of the `HH_MM` shape |
| Corpus.NoQuote | quote_display.py:59 | the placeholder is "There is no quote for " + key, empty time phrase and last part, title "N/A", author "Marcel Kurtz" |
| Display.QuoteDisplay.LoadData | quote_display.py:39-52 | afterwards the map holds exactly the `HH_MM` keys whose files loaded, each with that file's records, and nothing else |
| Display.QuoteDisplay.constructor | quote_display.py:32-37 | the display keeps the fixed time, has drawn no minute (`currentMin == -1`) and holds the loaded corpus |
| Display.QuoteDisplay.GetQuote | quote_display.py:54-59 | a key with records yields one of them; a key without yields the placeholder for that key |
| Display.QuoteDisplay.EveryQuoteSelectable | quote_display.py:56-57 | every record of a key's list is returned for some choice of index |
| Display.QuoteDisplay.Step | quote_display.py:63-114 | requires and keeps `Valid()` (every loaded key is an `HH_MM` key); a frame is drawn iff the minute differs from the last drawn one. The minute is then recorded, and the frame is the layout of the quote for the fixed time or, if none is set, for the clock's key. The corpus and the fixed time never change |
| Display.Start | quote_display.py:32-37 | a new display draws on its first step, whatever the minute |
| Layout.NoBreakMarkersLeft | quote_display.py:77-79 | no `<br>` or `<br/>` survives normalisation |
| Layout.BreaksToNewlinesKeeps | quote_display.py:77-79 | text without break markers is unchanged by normalisation |
| Layout.FullQuoteShape | quote_display.py:82-85 | the length that picks the font counts the two inserted newlines; the words of the assembled quote are those of its three parts in order |
| Layout.QuoteFontSize | quote_display.py:84-91 | size 36 iff length < 100, 28 iff 100 <= length < 200, 20 iff length >= 200 |
| Layout.FontSizeNonIncreasing | quote_display.py:84-91 | a longer quote never gets a larger font |
| Layout.TextHeight | quote_display.py:142-145 | the height is (number of newlines + 1) * (size + 6) - 6, so empty text has the height of one line |
| Layout.BlockInsideArea | quote_display.py:97-98 | a block no taller than 280 lies inside the quote area. Its top and bottom margins differ by at most one pixel, and its last line ends at its bottom |
| Layout.CentredX | quote_display.py:103-104 | the x offset of a line is never negative |
| Layout.CentredXPlacement | quote_display.py:103-104 | a line no wider than 400 is centred inside the width to within a pixel, and a line of width 399 or more starts at 0 |
| Layout.AuthorText | quote_display.py:109 | the attribution is the title, then " - ", then the author |
| Layout.AuthorPlacement | quote_display.py:111-114 | the attribution starts at x = 10 and its bottom is 10 pixels above the canvas bottom |
| Layout.PlaceLines | quote_display.py:100-106 | line k is drawn with its own text, centred on its measured width, at the block top plus k line-steps |
| Layout.Render | quote_display.py:77-114 | the frame drawn for a quote is its layout: font size from the normalised length, lines the greedy wrap of its words, centred, stacked from the centred block top, attribution at the bottom |
| Layout.LayoutDeterministic | quote_display.py:77-114 | the layout of a quote under given fonts is unique |
| Layout.LayoutPlacement | quote_display.py:97-106 | a frame has at least one line, no line starts left of the canvas, and when the block fits the area the first line's top is at y >= 0 and the last line's bottom at y <= 280 |
| Wrap.WrapText | quote_display.py:123-140 | the result has exactly the words of the input. Text without words gives `""`. Its lines, split on `'\n'`, are their words single-spaced and form a greedy wrap of the words |
| Wrap.WrapUnique | quote_display.py:129-138 | a word sequence has only one greedy wrap |
| Wrap.GreedyLines | quote_display.py:125-140 | the lines of a greedy wrap number at least one and keep the words in order, single-spaced. A line of two or more words fits. A line too wide has at most one word. A non-empty line plus the next line's first word is too wide. Only the first line may be empty, and it is empty only when there are no words or the first word alone is too wide |

## Left out

- The display hardware (`epd7in3e`, `set_image`, `show`) and the PIL image, drawing and font loading are foreign code. A frame is modelled as the list of strings with their positions and font size.
- The 180-degree rotation before the image is shown only changes pixels, not the layout.
- Font metrics are abstract integer functions. `draw.textlength` returns a float in the source, so `(400 - width) // 2` is taken on integers here.
- The width of the attribution line is measured by the source but never used, so it is not modelled. Neither is the unused minimum font size.
- `os.path.exists`, `open`, `json.load` and the logged skipping of unloadable files become the `read` parameter. A record missing a field (which raises `KeyError` in the source) has no counterpart: a record here always has all five fields.
- Display.QuoteDisplay.Step: `random.choice` is an index parameter. A key whose file holds an empty list makes `random.choice` raise, so `Step` requires the index to be within the list; the model does not describe the crash.
- The clock, `time.sleep(60)` and the endless `while True` loop are one call of `Step` per pass, with the clock's hour and minute as inputs. Exceptions escaping a pass are not modelled.
- Logging is not modelled.
- A corpus text containing lone surrogate code points (which `json.load` accepts, e.g. from `"\ud800"`) is not represented: a Dafny `char` is a Unicode scalar value, so surrogates have no counterpart.
- Wrap.GreedyLines: a line too wide is stated to hold at most one word, not exactly one. With an arbitrary width function the empty first line that the source emits for a too-wide first word can itself measure too wide.
- The source does not treat a key that maps to an empty list as a key without quotes. It also does not recover from a pass that fails. The model follows the source: `Step` requires a valid index, and a failing pass is outside the model.
