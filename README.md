# BPE tokenizer model

This project is a Dafny model of the byte-pair-encoding tokenizer in
`llm_tokenizer/.ipynb_checkpoints/BPETokenizer-checkpoint.py`, together with
proofs about that model.

How the tokenizer works:

- A `Tokenizer` is built over a stream of raw byte ids (0 to 255).
- Training repeats one step:
  - count the adjacent pairs of the stream;
  - take the most frequent pair;
  - mint the next id, starting at 256;
  - rewrite the stream, replacing the pair by the new id in one greedy left-to-right pass;
  - record the merge in an encoding map (pair to id) and a decoding map (id to pair).
- Training stops when a step finds nothing repeated (every pair has frequency 1), or when the largest id in the stream plus one equals the target vocabulary size.
- `encode` repeats left-to-right contraction passes until a pass contracts nothing.
- `decode` repeats expansion passes until no minted id is left.

Modules, following the program's structure:

- `TokenPairs`: the `TokenPair` record with its `_key` (`Key`) and `__lt__` (`Less`), and Python's built-in `max` over those records (`MaxPair`). `max` keeps the first of several equally frequent records.
- `PairCounts`: the adjacent pairs of a stream (`Pairs`), a pair's frequency, and the table `count` builds (`Tally`). Python dictionaries keep insertion order, so the model records the order in which pairs are first seen (`FirstSeen`).
- `Merge`: the rewrite of one training step (`Replace`), its inverse (`Unreplace`), and Python's `max` over the stream (`StreamMax`).
- `Codec`:
  - the encoder pass (`MergePass`) and its fixed point (`EncodeFix`);
  - the decoder pass (`DecodePass`) and full expansion (`FlatExpand`);
  - the round trip between encoding and decoding.
- `Training`: the invariant training keeps (`StreamValid`), and the proof that one merge step preserves it.
- `History`: the state reached after a sequence of merges, as recursive functions of that sequence.
- `Render`: the `decode_token` helper of `visualize_encoding_map`.
- `BPETokenizer`: the class `Tokenizer`.
  - Fields: the source's fields, with `tcounts` as a `map` plus its key order `torder`.
  - Methods: `Count`, `Train`, `Encode` and `Decode` are the loops of `count`, `train`, `encode` and `decode`.
  - `SwapTop` is one training step. Its rewrite loop is the module-level method `ReplaceTop`, which `SwapTop` reaches through `MergeTop`.
  - The inner loop of `encode` is the module-level method `EncodePass`.
  - Functions: `GetMostCommon` and `Filename`.
  - The class also has a ghost field `merges`, the list of pairs merged so far. Its invariant `Valid()` says that the stream, the next id and both maps are what those merges produce from the original bytes.

What is proved:

- The frequency table holds exactly the adjacent pairs, each with how many windows hold it. Overlapping windows each count.
- The most common record is a maximum, and of several equally frequent pairs the first one seen wins.
- A step whose top frequency is 1 changes nothing.
- One rewrite pass:
  - is greedy: no window of the result still holds the pair;
  - can be undone exactly;
  - shortens the stream by the number of replacements;
  - changes no other token.
- After every step:
  - the two maps are mutual inverses;
  - the minted ids are exactly 256, 257, … up to the next id;
  - each minted id decodes into two smaller ids;
  - the stream decodes back to the original bytes.
- After every merge, the largest id in the stream is the id minted last. So each merging step reports finished exactly when the next id reaches `encodingVocabSize`. For a fresh tokenizer with `encodingVocabSize` above 256, training stops after at most `encodingVocabSize - 256` merges.
- Training always takes its first step. Each merge is of the most frequent pair of the stream at that point, and the stop test fired after none of the merges but the last.
- A merge never leaves fewer than two tokens. So training fails on an empty table exactly when the starting stream has fewer than two tokens.
- Decoding terminates, leaves no minted id, and returns raw input unchanged.
- Encoding terminates and leaves no pair with a non-zero id in the encoding map.
- Encoding the training input does not in general give the stream training leaves. Encoding the stream training leaves gives it back unchanged.
- Decoding the encoding of any byte stream gives the stream back.

Two facts about the stop test that follow from the code:

- With a target vocabulary of 256 or less, the stop test can never fire: every step mints an id of at least 256, so the next id is above the target. Training goes on until no pair repeats.
- For byte input, after every merge (which is when the test runs), `max(self.encoded_tokens) + 1` is the next id, because the largest id in the stream is then the id minted last.

## Model

| member | source | states |
|---|---|---|
| TokenPairs.MaxPair | llm_tokenizer/.ipynb_checkpoints/BPETokenizer-checkpoint.py:41-42 | `max` over the records returns one of them. No record is strictly more frequent (by `__lt__`). Every record before its first occurrence is strictly less frequent, so the first of equally frequent records wins. |
| PairCounts.TallyCounts | llm_tokenizer/.ipynb_checkpoints/BPETokenizer-checkpoint.py:32-39 | The table built window by window has exactly the pairs of the window list as keys, each mapped to how often it occurs. |
| PairCounts.FrequencyPositive | llm_tokenizer/.ipynb_checkpoints/BPETokenizer-checkpoint.py:34-39 | A pair has frequency at least 1 exactly when some window of the stream holds it. |
| PairCounts.OverlappingWindows | llm_tokenizer/.ipynb_checkpoints/BPETokenizer-checkpoint.py:34-39 | Counting uses overlapping windows: a run of n equal tokens gives that pair a frequency of n - 1 (0 for an empty run). |
| PairCounts.FirstSeenOrder | llm_tokenizer/.ipynb_checkpoints/BPETokenizer-checkpoint.py:36-39 | The table's insertion order is first-seen order: a key listed earlier first occurs earlier in the stream. |
| Training.PairTableContents | llm_tokenizer/.ipynb_checkpoints/BPETokenizer-checkpoint.py:32-39 | The table's keys are exactly the pairs some window holds. Each value is that pair's frequency, at least 1. A stream of fewer than two tokens gives an empty table. |
| Training.MostCommonOfTable | llm_tokenizer/.ipynb_checkpoints/BPETokenizer-checkpoint.py:41-42 | For a stream of at least two tokens, `max` over the table's values in insertion order gives a record whose pair is in the table with its true frequency. No pair is more frequent. Every pair first seen earlier is strictly less frequent. |
| Training.TopIsUniqueMax | llm_tokenizer/.ipynb_checkpoints/BPETokenizer-checkpoint.py:41-42 | A pair strictly more frequent than every other pair of the table is the pair of the record `get_most_common` returns, with its frequency. |
| Training.TopIsFirstMax | llm_tokenizer/.ipynb_checkpoints/BPETokenizer-checkpoint.py:41-42 | The pair of the stream's first window, when no pair is more frequent, is the pair `get_most_common` returns: it wins every tie. |
| BPETokenizer.Tokenizer.Count | llm_tokenizer/.ipynb_checkpoints/BPETokenizer-checkpoint.py:32-39 | After the loop, `tcounts` is the pair table of the tokens and `torder` lists its keys in first-seen order. |
| BPETokenizer.Tokenizer.GetMostCommon | llm_tokenizer/.ipynb_checkpoints/BPETokenizer-checkpoint.py:41-42 | The record returned is a key of the table with its stored frequency, which is the pair's window count in the stream and at least 1. |
| BPETokenizer.Tokenizer.MostCommonIsFirstMax | llm_tokenizer/.ipynb_checkpoints/BPETokenizer-checkpoint.py:41-42 | The table's keys are the stream's pairs. Every frequency lies between 1 and the top frequency. A pair first seen before the top pair is strictly less frequent. |
| BPETokenizer.ReplaceTop | llm_tokenizer/.ipynb_checkpoints/BPETokenizer-checkpoint.py:51-60 | The rewrite loop computes the greedy left-to-right replacement `Replace` of the pair by the minted id. |
| Merge.UnreplaceReplace | llm_tokenizer/.ipynb_checkpoints/BPETokenizer-checkpoint.py:51-60 | When the minted id is new to the stream, expanding it back restores the old stream exactly. |
| Merge.ReplaceLength | llm_tokenizer/.ipynb_checkpoints/BPETokenizer-checkpoint.py:51-60 | The rewritten stream is shorter by exactly the number of replacements. |
| Merge.ReplaceCountPositive | llm_tokenizer/.ipynb_checkpoints/BPETokenizer-checkpoint.py:51-60 | If some window holds the pair, the pass replaces at least once. |
| Merge.ReplaceCountHalf | llm_tokenizer/.ipynb_checkpoints/BPETokenizer-checkpoint.py:51-60 | Each replacement consumes two tokens, so twice the number of replacements is at most the stream's length. |
| Merge.ReplaceKeepsTwo | llm_tokenizer/.ipynb_checkpoints/BPETokenizer-checkpoint.py:48-60 | Merging a pair held by two or more windows leaves at least two tokens. |
| Merge.ReplaceTokens | llm_tokenizer/.ipynb_checkpoints/BPETokenizer-checkpoint.py:51-60 | No other token changes: every token of the new stream is an old token or the minted id. The minted id appears exactly when something was replaced. |
| Merge.ReplacePairs | llm_tokenizer/.ipynb_checkpoints/BPETokenizer-checkpoint.py:51-60 | The pass is greedy: no window of the result holds the pair. Every window either holds the minted id or is a window of the old stream. |
| Merge.ReplaceMax | llm_tokenizer/.ipynb_checkpoints/BPETokenizer-checkpoint.py:69 | When every old id is below the minted id and the pair occurs, the minted id is the largest id of the new stream. This is what the stop test reads. |
| Training.StepMaps | llm_tokenizer/.ipynb_checkpoints/BPETokenizer-checkpoint.py:62-65 | Recording a merge of a pair not yet known keeps the maps mutually inverse and well formed, with the minted ids still 256 up to the next id. |
| Training.StepExpansion | llm_tokenizer/.ipynb_checkpoints/BPETokenizer-checkpoint.py:61-62 | After a merge, the new stream expanded with the updated decoding map is still the original tokens. |
| Training.StepWindows | llm_tokenizer/.ipynb_checkpoints/BPETokenizer-checkpoint.py:61-63 | After a merge, no window of the new stream holds a pair the updated encoding map knows. |
| Training.MergeStepValid | llm_tokenizer/.ipynb_checkpoints/BPETokenizer-checkpoint.py:61-65 | One merge of a pair that occurs in the stream preserves the whole training invariant `StreamValid`. |
| History.TrainedValid | llm_tokenizer/.ipynb_checkpoints/BPETokenizer-checkpoint.py:61-67 | Any sequence of merges, each of a pair then in the stream, leaves a state that satisfies the training invariant, with the next id 256 plus the number of merges. |
| History.TrainedStep | llm_tokenizer/.ipynb_checkpoints/BPETokenizer-checkpoint.py:61-67 | One more merge of an occurring pair rewrites the stream with `Replace` and makes it strictly shorter. It makes the new id the stream's largest, and adds exactly one entry to each map. |
| History.DecodingOfKeys | llm_tokenizer/.ipynb_checkpoints/BPETokenizer-checkpoint.py:62-65 | After n merges, the decoding map's keys are exactly 256 to 255 + n: ids minted in order. |
| History.DecodingOfPrefix | llm_tokenizer/.ipynb_checkpoints/BPETokenizer-checkpoint.py:62-65 | Later merges never change or remove an earlier entry of the decoding map. |
| History.ReachedStep | llm_tokenizer/.ipynb_checkpoints/BPETokenizer-checkpoint.py:61-65 | A state reached by a merge history, after one more merge, is reached by the extended history. |
| BPETokenizer.Tokenizer.ValidStream | llm_tokenizer/.ipynb_checkpoints/BPETokenizer-checkpoint.py:61-67 | The tokenizer's fields satisfy the training invariant. |
| BPETokenizer.Tokenizer.constructor | llm_tokenizer/.ipynb_checkpoints/BPETokenizer-checkpoint.py:22-30 | A fresh tokenizer holds the tokens as both original and current stream, with next id 256 and empty maps. Its pair table is counted, and it satisfies the invariant. |
| BPETokenizer.Tokenizer.MergeTop | llm_tokenizer/.ipynb_checkpoints/BPETokenizer-checkpoint.py:49-65 | The stream is rewritten, stays at least two tokens long and gets shorter. The merge is recorded in both maps, and the next id advances by one and is now the stream's largest. |
| BPETokenizer.Tokenizer.SwapTop | llm_tokenizer/.ipynb_checkpoints/BPETokenizer-checkpoint.py:44-69 | If the top frequency is 1, the step reports finished, every pair has frequency 1, and nothing changes. Otherwise the top pair is merged, the table is recounted, and the step is finished exactly when the next id reaches the target vocabulary size. |
| BPETokenizer.Tokenizer.Train | llm_tokenizer/.ipynb_checkpoints/BPETokenizer-checkpoint.py:71-78 | Training fails exactly when the starting stream has fewer than two tokens, and then changes nothing. Otherwise the first step is always taken, and the new merges are the successive top pairs (`GreedyFrom`), with the stop test silent after all but the last. Training stops either because no pair repeats or, after at least one new merge, because the next id reached the target. It keeps every earlier decoding entry and returns the stream, which decodes to the original tokens. |
| History.GreedyFromExtend | llm_tokenizer/.ipynb_checkpoints/BPETokenizer-checkpoint.py:71-78 | A greedy history extended by the top pair of its stream, with the stop test silent after its last merge, is still a greedy history. |
| BPETokenizer.Tokenizer.NextIsGreedy | llm_tokenizer/.ipynb_checkpoints/BPETokenizer-checkpoint.py:41-42 | When the top record of the tokenizer's stream repeats, merging its pair extends the greedy history. |
| Training.TopRecord | llm_tokenizer/.ipynb_checkpoints/BPETokenizer-checkpoint.py:41-42 | The record `get_most_common` returns for a stream of at least two tokens is a key of the table, with its frequency in the stream, at least 1. |
| BPETokenizer.Tokenizer.StreamIsEncoded | llm_tokenizer/.ipynb_checkpoints/BPETokenizer-checkpoint.py:135-149 | Encoding the stream training keeps returns it unchanged. |
| BPETokenizer.Tokenizer.FilenameInjective | llm_tokenizer/.ipynb_checkpoints/BPETokenizer-checkpoint.py:80-84 | Two tokenizers with the same path prefix share a file name only when they share a name: one never overwrites the other's file. |
| Codec.DecodePassProgress | llm_tokenizer/.ipynb_checkpoints/BPETokenizer-checkpoint.py:113-124 | Each decoder pass removes one pending expansion per id it expands. A pass expands nothing exactly when no id is minted, and then it returns its input. |
| Codec.FlatExpandRaw | llm_tokenizer/.ipynb_checkpoints/BPETokenizer-checkpoint.py:113-124 | A stream holding no minted id expands to itself. |
| BPETokenizer.Tokenizer.Decode | llm_tokenizer/.ipynb_checkpoints/BPETokenizer-checkpoint.py:110-127 | Decoding terminates with the full expansion of the input. No minted id is left, and input holding no minted id comes back unchanged. |
| Codec.MergePassLength | llm_tokenizer/.ipynb_checkpoints/BPETokenizer-checkpoint.py:136-149 | An encoder pass shortens the stream by exactly the number of contractions it makes. |
| Codec.MergeCountZero | llm_tokenizer/.ipynb_checkpoints/BPETokenizer-checkpoint.py:136-149 | A pass contracts nothing exactly when no window holds a known pair with a non-zero id, and then it returns its input. |
| Codec.EncodeFix | llm_tokenizer/.ipynb_checkpoints/BPETokenizer-checkpoint.py:135-149 | Repeating passes until one contracts nothing ends at a stream with no contractible window, never longer than the input. |
| BPETokenizer.EncodePass | llm_tokenizer/.ipynb_checkpoints/BPETokenizer-checkpoint.py:136-149 | The inner loop computes one encoder pass. Its flag stays true exactly when nothing was contracted, and then the stream is unchanged and has no contractible window. |
| BPETokenizer.Tokenizer.Encode | llm_tokenizer/.ipynb_checkpoints/BPETokenizer-checkpoint.py:130-152 | Encoding terminates with the fixed point of the encoder passes, which has no contractible window and is no longer than the input. |
| History.EncodeOfTrainingInputDiffers | llm_tokenizer/.ipynb_checkpoints/BPETokenizer-checkpoint.py:41-78 | Encoding the training input does not in general give the training stream. On `[0, 1, 0, 0, 0, 0, 1, 0, 1]` the first training step merges (0, 1), the first seen of two pairs tied at frequency 3, and the second merges (0, 0). Those merges leave `[256, 257, 0, 256, 256]`, while encoding the input with the maps they build gives `[256, 257, 257, 1, 256]` (`encode`, lines 130-152). |
| Codec.FlatExpandEncode | llm_tokenizer/.ipynb_checkpoints/BPETokenizer-checkpoint.py:130-152 | When the encoding map undoes the decoding map, encoding does not change what the stream expands to. |
| Codec.RoundTrip | llm_tokenizer/.ipynb_checkpoints/BPETokenizer-checkpoint.py:110-152 | With a well-formed decoding map and an encoding map it undoes, decoding the encoding of a raw stream gives the stream back. |
| BPETokenizer.Tokenizer.EncodeDecodeRoundTrip | llm_tokenizer/.ipynb_checkpoints/BPETokenizer-checkpoint.py:110-152 | For the tokenizer's own maps, after any number of training steps, decoding the encoding of any byte stream gives it back. |
| Render.DecodeTokenShowsExpansion | llm_tokenizer/.ipynb_checkpoints/BPETokenizer-checkpoint.py:158-166 | `decode_token` shows, in order, each raw id a minted id stands for, each one as a printable character or a bracketed number. |
| Render.DigitsRoundTrip | llm_tokenizer/.ipynb_checkpoints/BPETokenizer-checkpoint.py:160 | Reading back the decimal digits used in a bracketed placeholder gives the number. |

## Left out

- `save_to_file` and `load_from_file` (pickle and file I/O) are not modelled. `Filename`, the path they use, is.
- UTF-8 text input and output (`raw_tokens=False`: `str.encode` and `bytes.decode` with replacement) are not modelled. The constructor and `Encode` take ids, and `Decode` returns ids.
- `debug` printing, the `print` calls of `visualize_encoding_map` and `TokenPair.to_string` are not modelled: they are output only.
- The decoding map holds the pair `(first, second)` rather than the `TokenPair` record. The record's `frequency` is never read after training.
- `frequency` and ids are unbounded integers. Python's integers are unbounded too.
- BPETokenizer.Tokenizer.constructor takes byte ids (0 to 255) only. With `raw_tokens=True`, Python accepts any integer list, and the model's invariant needs the original tokens to be below the first minted id.
- BPETokenizer.Tokenizer.Decode requires a decoding map whose ids expand into smaller ids. Python's loop runs on any map, but with a cyclic map it never ends. Every map training builds meets the requirement (`Valid()`).
- BPETokenizer.Tokenizer.GetMostCommon requires a stream of at least two tokens. In Python, `max` over an empty table raises; `Train` models that raise as `Err(EmptyPairTable)` before the first step.
- BPETokenizer.Tokenizer.merges is a ghost field with no counterpart in the source: it names the history the maps already record.
- Render.DecodeToken requires a well-formed decoding map, in which every id expands into smaller ids. Python's `decode_token` also ends on other acyclic maps. Every map training builds is well formed.
- `EncodePass` is the inner loop of `encode`, written as its own method. The two loops of `encode` are still both present.
