# Text segmentation engine of the TRPG PDF copy tool

This project models the text-segmentation engine of `streamlit_app.py` in Dafny.
It covers `smart_split_text`, which cuts the text extracted from a PDF into blocks, and `remove_newlines`, which normalizes whitespace.
`smart_split_text` has five strategies:

- `blank_lines` splits at blank-line separators (the pattern `\n\s*\n+`).
- `sentences` splits at the full-width terminators 。！？ and closes every sentence with 。.
- `paragraphs` walks the lines and glues each line shorter than 30 characters onto the open block after one space.
- `length` cuts chunks of about 200 characters and extends each one to the next stop character.
- `auto` delegates to `blank_lines` when separators are dense and to `paragraphs` otherwise.

Whatever the strategy, a final filter drops whitespace-only blocks.
`remove_newlines` deletes every `\r?\n` and then every whitespace character.

Modules:

- `Text` holds the string vocabulary:
  - Python whitespace (`IsWs`, the set for which `str.isspace()` holds; `\s` and `str.strip()` use the same set);
  - `Strip`;
  - splitting on a character set (`SplitAt`), which covers `str.split('\n')` and `re.split('[。！？]', …)`;
  - the list comprehension `[p.strip() for p in ps if p.strip()]` (`StripEach`);
  - `" ".join` (`JoinSpace`).
- `BlankLineSplit` models the regular expression `\n\s*\n+` as a scan. A match starts at a newline and runs to the last newline that can be reached over whitespace. Matches are leftmost and do not overlap, as in `re.split` and `re.findall`.
- `SentenceSplit`, `ParagraphSplit` and `LengthSplit` model one strategy each. The two loops of the source, `paragraphs` and `length`, are methods proved equal to a specification function. Lemmas state their properties.
- `Splitter` models the dispatch, the `auto` heuristic and the final filter.
- `Normalizer` models `remove_newlines`.

Three behaviours of the code are worth stating plainly:

- `sentences` always closes a sentence with 。. The comment at streamlit_app.py:133 speaks of restoring the full stop, and the `endswith` test at line 134 skips that when a sentence already ends in a terminator. But `re.split` at line 128 has already removed every terminator, so the test never holds. A sentence that ended in ！ or ？ comes back ending in 。 (`SentenceSplit.Example`).
- Any method name without a branch of its own takes the `else` branch at line 185, the `auto` heuristic, just as `"auto"` does (`Splitter.AutoDelegates`).
- `length` on a text without any stop character gives at most one block, however long the text is (`LengthSplit.NoStopOneBlock`). Once the 200-character mark falls short of the end, the extension loop at line 175 runs to the end of the text. An empty or whitespace-only text gives no block.

## Model

| member | source | states |
|---|---|---|
| Text.Strip | streamlit_app.py:124 | `str.strip()`: the result neither starts nor ends with whitespace, and it is empty exactly when the input is whitespace only |
| Text.StripTrimmed | streamlit_app.py:148 | stripping an already trimmed block changes nothing, so `current_block.strip()` only returns the block |
| Text.SplitAt | streamlit_app.py:140 | `text.split('\n')` and `re.split('[。！？]', …)` give one more piece than there are delimiters, and no piece contains a delimiter |
| Text.SplitAtJoin | streamlit_app.py:128 | putting the delimiters back between the pieces rebuilds the text: the split loses nothing |
| Text.StripEach | streamlit_app.py:124 | the kept pieces are non-empty and trimmed, and there are no more of them than pieces |
| Text.StripEachSnoc | streamlit_app.py:124 | the comprehension works piece by piece: a piece added at the end adds its stripped form when that is not empty |
| BlankLineSplit.LastNlInRun | streamlit_app.py:123 | the greedy `\s*\n+` stops at the last newline reachable over whitespace, and when there is none it does not match |
| BlankLineSplit.SepEnd | streamlit_app.py:123 | a match starting at q is a blank-line separator, no longer one starts at q, and when none is returned no separator starts at q |
| BlankLineSplit.Separators | streamlit_app.py:187 | every match of `re.findall(r'\n\s*\n+', text)` is at least two characters, whitespace only, and starts and ends with a newline |
| BlankLineSplit.Pieces | streamlit_app.py:123 | `re.split` leaves one more piece than there are separators |
| BlankLineSplit.PiecesTile | streamlit_app.py:123 | the pieces with the separators between them rebuild the text exactly |
| BlankLineSplit.PiecesHaveNoSeparator | streamlit_app.py:123 | no piece contains a blank-line separator |
| BlankLineSplit.BlocksShape | streamlit_app.py:123-124 | every `blank_lines` block is non-empty and trimmed and contains no two newlines with only whitespace between them |
| SentenceSplit.RestoreAppendsFullStop | streamlit_app.py:130-136 | the loop keeps one sentence per non-blank piece, in order, and each is the stripped piece followed by 。 |
| SentenceSplit.BlocksArePieces | streamlit_app.py:128-136 | the `sentences` blocks are the stripped non-blank pieces between terminators, each closed with 。 |
| SentenceSplit.BlocksShape | streamlit_app.py:128-136 | every sentence ends with 。 and has no other terminator, and before the 。 it is non-empty and trimmed |
| SentenceSplit.Example | streamlit_app.py:128-136 | "a！ b" gives "a。" and "b。" |
| ParagraphSplit.Split | streamlit_app.py:140-161 | the loop over the lines computes exactly the fold of the line step followed by the final flush |
| ParagraphSplit.FlushOpen | streamlit_app.py:160-161 | with a trimmed open block, the final flush appends it unchanged when it is not empty |
| ParagraphSplit.StepWellFormed | streamlit_app.py:145-158 | one iteration keeps every closed block non-empty and trimmed and leaves a block open exactly when the line is not blank |
| ParagraphSplit.FoldWellFormed | streamlit_app.py:144-158 | after any number of lines, the state is well formed and a block is open exactly when the last line was not blank |
| ParagraphSplit.FoldNewlineFree | streamlit_app.py:144-158 | no newline gets into the state |
| ParagraphSplit.BlocksShape | streamlit_app.py:140-161 | every `paragraphs` block is non-empty and trimmed and holds no newline |
| ParagraphSplit.StepCount | streamlit_app.py:146-158 | a line adds a block exactly when it is not blank and either no block is open or it has at least 30 characters |
| ParagraphSplit.FoldCount | streamlit_app.py:144-158 | the number of blocks open or closed equals the number of lines that start a block |
| ParagraphSplit.BlockCount | streamlit_app.py:140-161 | the number of blocks is the number of lines that start one, and at most the number of non-blank lines |
| ParagraphSplit.StepContent | streamlit_app.py:146-158 | joined with spaces, one iteration adds exactly the stripped line, after one space |
| ParagraphSplit.FoldContent | streamlit_app.py:144-158 | joined with spaces, the state spells the stripped non-blank lines joined with spaces |
| ParagraphSplit.BlocksContent | streamlit_app.py:140-161 | the blocks joined with spaces equal the stripped non-blank lines joined with spaces: nothing is dropped, reordered or duplicated |
| LengthSplit.ExtendToStop | streamlit_app.py:175-176 | the inner loop stops at the first character of 。！？ or newline at or after its start, or at the end of the text |
| LengthSplit.ChunkEnd | streamlit_app.py:170-178 | a chunk is non-empty and at least 200 characters or the rest of the text; short of the end it reaches past the 200-character mark and ends just after the first stop character at or after the mark |
| LengthSplit.FindChunkEnd | streamlit_app.py:170-178 | the loop that proposes and extends `end_pos` returns the chunk end |
| LengthSplit.Split | streamlit_app.py:163-183 | the outer loop emits exactly the stripped non-empty chunks, in order |
| LengthSplit.NextChunk | streamlit_app.py:180-183 | one pass of the outer loop emits the stripped chunk when it is not empty and moves to the chunk's end |
| LengthSplit.RawChunksTile | streamlit_app.py:169-183 | the chunks tile the text exactly and in order |
| LengthSplit.RawChunksShape | streamlit_app.py:169-183 | no chunk is empty, and every chunk but the last has at least 200 characters and ends with a stop character |
| LengthSplit.NoStopOneBlock | streamlit_app.py:170-178 | a text without a stop character gives at most one chunk and one block |
| Splitter.KeepNonBlank | streamlit_app.py:195 | the final filter keeps only blocks with a non-whitespace character and never adds one |
| Splitter.KeepNonBlankKeepsAll | streamlit_app.py:195 | a list without a blank block passes the filter unchanged |
| Splitter.KeepNonBlankIdempotent | streamlit_app.py:195 | filtering twice is filtering once |
| Splitter.Blocks | streamlit_app.py:117-195 | every block returned by any method has a non-whitespace character |
| Splitter.SmartSplit | streamlit_app.py:117-195 | the dispatch, with the two loops run as methods, returns exactly the specified blocks |
| Splitter.AutoDelegates | streamlit_app.py:185-193 | `auto`, and any name without a branch, returns the `blank_lines` result when 10 × separators > lines and the `paragraphs` result otherwise |
| Splitter.FilterRemovesNothing | streamlit_app.py:121-195 | for each named method the final filter drops nothing, because every block already has a non-whitespace character |
| Splitter.EmptyText | streamlit_app.py:117-195 | the empty text gives no block, whatever the method |
| Normalizer.DropLineBreaks | streamlit_app.py:202 | removing `\r?\n` leaves no newline and never lengthens the text |
| Normalizer.DropWs | streamlit_app.py:204 | removing `\s` leaves no whitespace and never lengthens the text |
| Normalizer.DropWsAppend | streamlit_app.py:204 | removing whitespace works piece by piece over a concatenation |
| Normalizer.DropWsKeeps | streamlit_app.py:204 | a text without whitespace is unchanged |
| Normalizer.DropWsBlank | streamlit_app.py:204 | a whitespace-only text becomes empty |
| Normalizer.RemoveNewlinesDropsWs | streamlit_app.py:197-205 | the two substitutions together remove exactly the whitespace characters, so the first is subsumed by the second |
| Normalizer.RemoveNewlinesWsFree | streamlit_app.py:197-205 | the result has no whitespace and is no longer than the input |
| Normalizer.RemoveNewlinesIdempotent | streamlit_app.py:197-205 | applying `remove_newlines` twice is applying it once |
| Normalizer.Example | streamlit_app.py:197-205 | "a \t\nb\r\nc" becomes "abc" |

## Left out

- The Streamlit user interface, PDF text extraction (`extract_text_from_pdf`), the HTML and JavaScript copy buttons and the clipboard are not part of this model. They are I/O and presentation around the engine.
- Splitter.Dense: `blank_lines > total_lines * 0.1` is a floating-point comparison, modelled as the integer test `10 * k > n`. With m = n div 10, both tests hold exactly when k > m, provided the rounded product `n * 0.1` lies in [m, m + 1). It never falls below m: the double nearest 0.1 is slightly above 0.1 and m is exactly representable. For n below 2^52 it also stays below m + 1, because the exact product is at most about m + 0.9 and the rounding error is under half the remaining distance. Texts of 2^52 lines or more are not modelled; there the two tests can differ.
- BlankLineSplit.Separators: the general regular-expression engine is not modelled. The one pattern `\n\s*\n+` is modelled directly as a scan, with the leftmost, non-overlapping and greedy matching that `re` uses for it.
- Text.IsWs: `\s` and `str.strip()` are taken to match the same set of characters, the one for which `str.isspace()` holds on a `str`. Byte strings and the `re.ASCII` flag do not occur in the source.
- Python strings are sequences of code points, modelled as `seq<char>`, whose elements are Unicode scalar values. A character outside the Basic Multilingual Plane is one element, as in Python. A lone surrogate, which a Python `str` can hold, cannot be represented.
