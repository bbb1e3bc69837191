# Phoneme tokenizer: a Dafny model

This project models the string logic of ESPnet's `PhonemeTokenizer`
(`espnet2/text/phoneme_tokenizer.py`):

- the non-linguistic-symbol scan of `text2tokens`: a left-to-right loop over a shrinking
  line that, at each step, tries every configured symbol as a prefix, emits the first
  one that matches (or drops it when removal is on) and otherwise emits one character;
- the joining of the emitted pieces into the text handed to the grapheme-to-phoneme
  (G2P) backend, and `tokens2text`, the same plain concatenation;
- the backend dispatch of `__init__` on the `g2p_type` key: six exact keys, then the
  `espeak_arpabet…` and `espeak…` prefixes with a language code read from an
  underscore-separated field (default `fr-fr`), and an error for any other key;
- the string handling each backend does around its library call: the space split of
  `pyopenjtalk_g2p`, the per-character split of `pyopenjtalk_g2p_kana`, the
  initial/final split of `pypinyin_g2p_phone` without empty parts, the no-space filter
  of `G2p_en` and the underscore split of `espeak_g2p`;
- the lazily built model of `G2p_en`, a class whose `g2p` field is empty until the first
  call, is set then, and is reused afterwards.

Layout: `results.dfy` (Option and Result), `text.dfy` (the Python `str` operations used:
`startswith`, `"".join`, `split`, `replace`, `list`; plus `JoinWith`, a join with a
separator that the source never calls, used only to state what `split` gives back), `scanner.dfy` (the
scan as a function, the loop as a method, and the lemmas about it), `g2p.dfy` (the
backends) and `tokenizer.dfy` (dispatch and the `PhonemeTokenizer` class).

The foreign libraries (g2p_en, pyopenjtalk, pypinyin, the `espeak-ng` process and
ipapy's ARPABET mapper) are not modelled. Their results arrive as the function-valued
fields of `G2p.Libraries`, so every statement about a backend holds for any library
behaviour.

The symbol collection is a Python `set`. It is modelled as a `seq<string>` in that
set's iteration order. The scanner does not look for the longest symbol: the first
symbol in iteration order that the line starts with is consumed, even when a longer
symbol also matches (`Scanner.FirstMatchNotLongest`). The model keeps this behaviour
and makes no longest-match claim.

The scan loop does not always terminate. Once the first matching symbol is the empty
string (a blank line in a symbol file becomes `""` after `rstrip`), the line stops
shrinking and the loop runs forever. `Scanner.Scan` and `Scanner.ScanLoop` report
that state as `Hangs(at)`, where `at` is the remainder at which the loop stalls.
`Scanner.ScanTerminates` proves there is no hang when no symbol is empty.

## Model

| member | source | states |
|---|---|---|
| `Text.Split` | espnet2/text/phoneme_tokenizer.py:117-120 | `str.split` with a one-character separator: at least one field, no field contains the separator, joining the fields with the separator gives the input back, and there are two or more fields exactly when the separator occurs |
| `Text.Replace` | espnet2/text/phoneme_tokenizer.py:68 | `str.replace` of one character: same length, every occurrence replaced, every other character kept in place |
| `Text.Chars` | espnet2/text/phoneme_tokenizer.py:25 | `list(s)`: one single-character string per character, in order, and joining them gives `s` back |
| `Scanner.Scan` | espnet2/text/phoneme_tokenizer.py:148-158 | the loop as a recursion: the first matching symbol is consumed (and emitted unless removal is on), otherwise one character is emitted; `Hangs` on an empty first match; a finished scan emits at most one piece per character of the line |
| `Scanner.FirstMatch` | espnet2/text/phoneme_tokenizer.py:149-154 | the symbol the `for … break` picks: a symbol the line starts with, with no earlier symbol in iteration order being a prefix; none exactly when no symbol is a prefix |
| `Scanner.ScanLoop` | espnet2/text/phoneme_tokenizer.py:146-160 | the `while`/`for … else` loop computes exactly the scan `Scan` describes, including the hang on an empty first match |
| `Scanner.ScanTerminates` | espnet2/text/phoneme_tokenizer.py:148-158 | with no empty-string symbol every pass consumes at least one character, so the scan finishes |
| `Scanner.ScanHangsAt` | espnet2/text/phoneme_tokenizer.py:148-158 | the loop can stall only at a non-empty remainder of the line whose first matching symbol is the empty string |
| `Scanner.BlankSymbolFirstHangs` | espnet2/text/phoneme_tokenizer.py:148-158 | an empty-string symbol tried first stalls the loop on every non-empty line |
| `Scanner.FirstMatchNotLongest` | espnet2/text/phoneme_tokenizer.py:149-154 | iteration order decides: with `<a` before `<ab>` the line `<ab>` is cut as `<a`, `b`, `>`; with the order swapped it is one piece |
| `Scanner.ScanKeepsText` | espnet2/text/phoneme_tokenizer.py:148-160 | with removal off, the joined pieces equal the input line, for any symbol collection, whenever the scan finishes |
| `Scanner.ScanPieces` | espnet2/text/phoneme_tokenizer.py:149-157 | every emitted piece is a non-empty configured symbol (only with removal off) or a single character that is not a symbol |
| `Scanner.ScanRemoveDeletesSymbols` | espnet2/text/phoneme_tokenizer.py:151-158 | with removal on, the pieces are the removal-off pieces with the symbol pieces deleted, and the scan hangs at the same place |
| `Scanner.ScanRemoveKeepsOrder` | espnet2/text/phoneme_tokenizer.py:151-158 | with removal on, the joined text is a subsequence of the line (the other characters keep their order) and is no longer than the line |
| `Scanner.ScanWithoutSymbolsPassesThrough` | espnet2/text/phoneme_tokenizer.py:148-160 | when no symbol occurs in the line, the pieces are its characters and the joined text is the line, whatever the removal flag |
| `G2p.PyopenjtalkPhones` | espnet2/text/phoneme_tokenizer.py:12-18 | the phoneme string split on spaces: no token holds a space, and joining with spaces restores the string |
| `G2p.PyopenjtalkKanas` | espnet2/text/phoneme_tokenizer.py:21-25 | one token per kana character, and the tokens join back to the kana string |
| `G2p.PinyinPhones` | espnet2/text/phoneme_tokenizer.py:36-51 | no token is empty, at most two tokens per syllable, and the tokens join to the syllables' initials and finals in order |
| `G2p.PinyinPhonesInOrder` | espnet2/text/phoneme_tokenizer.py:42-50 | the tokens are a subsequence of the syllables' initials and finals listed in order (each initial before its final) |
| `G2p.PinyinPhonesDropEmpty` | espnet2/text/phoneme_tokenizer.py:42-50 | the tokens hold every non-empty initial and final exactly as often as the list does and no empty one; with `PinyinPhonesInOrder`, this pins them to that list with the empty parts taken out |
| `G2p.PinyinPhonesAppend` | espnet2/text/phoneme_tokenizer.py:42-50 | the tokens of a run of syllables are the tokens of its parts in sequence, so each syllable's initial and final stay together and in order |
| `G2p.DropSpaces` | espnet2/text/phoneme_tokenizer.py:89-91 | no `" "` token remains, every other token is kept as often as it occurred, and the kept tokens are in their original order |
| `G2p.EspeakTokens` | espnet2/text/phoneme_tokenizer.py:68 | no token holds a space or an underscore, and joining the tokens with `_` gives the output with every space replaced by `_` |
| `G2p.EspeakG2p.Args` | espnet2/text/phoneme_tokenizer.py:60 | the six-element `espeak-ng` argument vector: the language third, `--sep=_` fifth, and last `--ipa` exactly in ARPABET mode, otherwise the empty string |
| `G2p.EspeakG2p.Call` | espnet2/text/phoneme_tokenizer.py:58-68 | a non-zero exit status is an error carrying that status; otherwise the output is the ARPABET mapping in ARPABET mode, and otherwise the underscore split: at least one token, none holding a space or underscore, rejoining with `_` to the output with spaces replaced |
| `G2p.G2pEn.constructor` | espnet2/text/phoneme_tokenizer.py:80-82 | a new wrapper holds the `no_space` flag and no model |
| `G2p.G2pEn.Call` | espnet2/text/phoneme_tokenizer.py:84-92 | after a call a model is present: a newly built one when there was none, and otherwise the one already held, unchanged (so it is built once and then reused); the output is the model's tokens, without `" "` tokens when `no_space` is set |
| `G2p.Convert` | espnet2/text/phoneme_tokenizer.py:12-68 | running a backend: only espeak can fail, and only on a non-zero exit; g2p_en gives the model's tokens (filtered when `no_space`); pyopenjtalk gives at least one space-free token that rejoins with spaces to the phoneme string; kana gives one-character tokens that join to the kana string; pypinyin gives the readings; the phone variant is `PinyinPhones` of the readings; espeak is `EspeakG2p.Call` |
| `Tokenizer.EspeakFromKey` | espnet2/text/phoneme_tokenizer.py:116-121 | the espeak backend a key configures is in ARPABET mode exactly when the key starts with `espeak_arpabet` |
| `Tokenizer.Dispatch` | espnet2/text/phoneme_tokenizer.py:104-123 | the six exact keys select their fixed backends; every other key starting with `espeak` selects the espeak backend its key configures; any remaining key is rejected with `Not supported: g2p_type=<key>` |
| `Tokenizer.DispatchEspeakLang` | espnet2/text/phoneme_tokenizer.py:119-121 | any espeak key that does not start with `espeak_arpabet` (`espeak_de`, `espeakng_de_x`, ...) selects plain espeak with its second `_` field as the language |
| `Tokenizer.DispatchEspeakDefaultLang` | espnet2/text/phoneme_tokenizer.py:119-121 | an `espeak…` key without `_` selects plain espeak with language `fr-fr` |
| `Tokenizer.DispatchEspeakArpabetLang` | espnet2/text/phoneme_tokenizer.py:116-118 | any key starting with `espeak_arpabet` that has a third `_` field (`espeak_arpabet_en`, `espeak_arpabetx_en_x`, ...) selects ARPABET espeak with that field as the language |
| `Tokenizer.DispatchEspeakArpabetDefaultLang` | espnet2/text/phoneme_tokenizer.py:116-118 | `espeak_arpabet` followed by no further `_` has two fields only and selects ARPABET espeak with language `fr-fr` |
| `Tokenizer.PhonemeTokenizer.constructor` | espnet2/text/phoneme_tokenizer.py:125-135 | the fields hold the key, the dispatched backend, the symbols, the space symbol and the removal flag; a fresh model-less `G2p_en` exists exactly for the g2p_en keys |
| `Tokenizer.PhonemeTokenizer.Create` | espnet2/text/phoneme_tokenizer.py:96-135 | construction fails exactly when dispatch rejects the key, with dispatch's message; otherwise a valid tokenizer with the given settings, and no symbols given means an empty collection; the defaults are no symbols, space symbol `<space>` and removal off, as in the Python signature |
| `Tokenizer.PhonemeTokenizer.Text2Tokens` | espnet2/text/phoneme_tokenizer.py:146-162 | the result is the backend run on the joined scan pieces; a stalled scan reaches no backend and leaves the model untouched; on a finished scan the g2p_en model is set to a newly built model when there was none and is kept when there was one |
| `Tokenizer.PhonemeTokenizer.Tokens2Text` | espnet2/text/phoneme_tokenizer.py:164-166 | each token stands in the result right after the join of the tokens before it, and the result ends with the last token (empty for no tokens) |

## Left out

- The G2P libraries (`g2p_en.G2p`, `pyopenjtalk.g2p`, `pypinyin.pinyin`, `get_initials`, `get_finals`, `ARPABETMapper`) are foreign code. They are parameters (`G2p.Libraries`), and nothing is assumed about what they return.
- The `subprocess.run` call to `espeak-ng` is process I/O. It is a parameter that maps the argument vector and the input text to an exit status and an output string. The model does not reproduce two quirks of the call: `input` is a `str` passed without `text=True`, and the bare `raise` on a non-zero status has no active exception to re-raise. A non-zero status is modelled as the error `EspeakExit(status)`.
- Scanner.ScanLoop: the source loops forever once the first matching symbol is empty. The model cannot diverge, so it returns `Hangs(at)` at the first such step instead.
- Reading the symbol file (`__init__`, lines 129-132) is I/O. `Create` takes the collection itself (or none). The model does not cover how `rstrip` turns a blank line into the empty symbol; `Scanner.BlankSymbolFirstHangs` and `Scanner.ScanHangsAt` cover what that symbol then does.
- Python `set` semantics are not modelled. There is no deduplication, and the iteration order is whatever order the `seq` has. A duplicate symbol never changes the scan, because the first copy always wins.
- `G2p.Libraries.pinyin` gives the first TONE3 reading of each unit, that is `phone[0]` of each entry `pypinyin.pinyin` returns. The alternative readings and an entry without a reading (an `IndexError` in the source) are not modelled.
- `check_argument_types` (runtime type checking) and `__repr__` (formatting) are not modelled.
- The pickling and multiprocessing reasons for the lazy model in `G2p_en` are not modelled: there is no concurrency and no process copy. Only the field's behaviour is.
- `space_symbol` is stored in a field, as in the source, and nothing reads it.
- The `lang='en'` default of `espeak_g2p` is not modelled, because dispatch always passes `lang`. The `arpabet=False` default is what the plain-espeak branch relies on: it passes only `lang`, and `Tokenizer.EspeakFromKey` reproduces that call as `EspeakG2p(lang, false)`.
