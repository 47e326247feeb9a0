# Frequency, filter and tail reader: a Dafny model of `test.py`

`test.py` is a short Python script holding three exercises. This project
models all three and proves what each one computes:

- **Frequency and modes** (lines 14-29). A loop builds a dict from string
  to count. The script compares that dict with `collections.Counter`. It
  then takes the key with the largest count using `max(freq, key=freq.get)`,
  takes the largest count itself, and lists every key that has it.
  A Python dict keeps its keys in first-insertion order, and `max` returns
  the first maximal key in that order. The dict is therefore a `FreqTable`:
  the keys in insertion order plus a map from key to count. The model is
  generic in the key type.
- **Filter** (lines 43-47). A loop copies every element except 21 into a
  fresh list. The value to drop becomes a parameter.
- **Tail reader** (lines 77-86). `print_last_10_lines` checks that the path
  names a regular file. If it does, the function streams the file's lines
  through `deque(file, maxlen=10)` and prints what remains, oldest first,
  with each line passed through `rstrip()`.
  - The deque is a class, `Deque.BoundedDeque`, whose items are a sequence
    reassigned in place. An append to a full deque drops the element at the
    left end.
  - The file is an `Option<seq<string>>`. It is `None` when the path does
    not name a regular file. Otherwise it holds the lines that Python's file
    iteration yields, each with its line terminator.
  - Printing becomes returning the printed lines.

Modules: `Wrappers` (`Option`), `Frequency`, `ListFilter`, `Deque` (the
bounded deque and the window it keeps) and `TailReader`.

`rstrip()` with no argument removes every trailing character for which
`str.isspace()` holds. This includes blanks, tabs and form feeds, not only
`\n` and `\r`. The script's own notes describe it the same way: line 94
says `rstrip()` removes right-side whitespace, and lines 98-100 show
`"   hi   "` becoming `"   hi"`. The model follows the code:
`TailReader.IsSpace` is Python's whitespace set.

## Model

| member | source | states |
|---|---|---|
| Frequency.DistinctSpec | test.py:17-21 | The keys in first-occurrence order contain exactly the list's elements and are ordered by where each first occurs. |
| Frequency.CountsSpec | test.py:17-21 | The counts map has exactly the list's elements as keys. Each count is that element's number of occurrences. |
| Frequency.CounterSpec | test.py:22 | `Counter(lst)` has no duplicate keys. Its keys are exactly the list's elements, ordered by first occurrence. Each count equals the multiplicity. |
| Frequency.CountsSnoc | test.py:18-21 | The step law of the `Counts` definition: one more element raises its own count by one, or adds it with count 1. No other count changes. |
| Frequency.CounterSnoc | test.py:17-21 | The tally of `lst + [x]` is one loop pass applied to the tally of `lst`: raise the count of a known key, or append a new key with count 1. |
| Frequency.CountFreq | test.py:15-21 | The counting loop builds exactly `Counter(lst)`. That table is valid, its keys are exactly the list's elements in first-occurrence order, and every count equals the multiplicity. |
| Frequency.MaxCount | test.py:26 | No key's count exceeds the result, and some key's count equals it. |
| Frequency.MaxFreq | test.py:26 | `max(freq.values())` is absent exactly when the dict is empty. Otherwise it bounds every count and equals one of them. |
| Frequency.ArgMaxIndex | test.py:25 | The chosen position holds a maximal count, and every earlier position holds a strictly smaller one. |
| Frequency.ArgMax | test.py:25 | `max(freq, key=freq.get)` is absent exactly when the dict is empty. Otherwise its count equals the maximum, and it is the first key in insertion order with that count. |
| Frequency.KeysWithCount | test.py:28 | The comprehension keeps exactly the keys whose count is `m`, in dict order. |
| Frequency.KeysWithCountNone | test.py:28 | When no key has count `m`, the comprehension's result is empty. |
| Frequency.KeysWithCountHead | test.py:28 | If key `i` is the first with count `m`, the comprehension's result starts with it. |
| Frequency.ArgMaxIsFirstMode | test.py:25-28 | The key `max` returns is the first entry of the mode list. |
| Frequency.MostFrequent | test.py:14-29 | The largest count and `max`'s key are absent exactly for an empty list. Otherwise the largest count bounds and attains the multiplicities. The mode list holds exactly the elements of largest multiplicity, in first-occurrence order, and starts with `max`'s key. |
| Frequency.CountOne | test.py:18-21 | One loop pass from a known tally gives the stated tally. |
| Frequency.CountThree | test.py:17-21 | Three loop passes from a known tally give the stated tally. |
| Frequency.ScriptShapeTally | test.py:14-21 | For any four distinct values laid out like line 14's list, the tally has keys in order cat, dog, lion, hen with counts 3, 3, 2, 1. |
| Frequency.ScriptShapeMax | test.py:25-26 | For that tally, the largest count is 3 and `max` returns cat. |
| Frequency.ScriptShapeModes | test.py:28 | For that tally, the modes are cat and dog. |
| Frequency.ScriptExample | test.py:14-29 | On line 14's list: the dict is {cat: 3, dog: 3, lion: 2, hen: 1} in that order, the largest count is 3, the modes are ['cat', 'dog'], and `max` gives 'cat'. |
| ListFilter.WithoutCounts | test.py:44-47 | The filtered list has no `x`, keeps every other value's multiplicity, and is shorter by the number of copies of `x`. |
| ListFilter.WithoutAppend | test.py:45-47 | Filtering a concatenation filters each part. |
| ListFilter.WithoutAbsent | test.py:45-47 | A list without `x` comes back unchanged. |
| ListFilter.WithoutKeepsOrder | test.py:44-47 | The result is the subsequence of `a` at exactly the positions that do not hold `x`, in increasing order. |
| ListFilter.WithoutCons | test.py:45-47 | The head is kept exactly when it differs from `x`. |
| ListFilter.FilterOut | test.py:44-47 | The loop produces the filtered list: `x` is absent, every other multiplicity is kept, and the length drops by the count of `x`. |
| ListFilter.ScriptExample | test.py:43-47 | The list of line 43 becomes [12, 38, 42, 56, 69, 16]. |
| Deque.LastSpec | test.py:85 | The window has at most `k` elements. It holds all of a sequence that is no longer than `k`, and otherwise exactly its last `k`, as a suffix. |
| Deque.LastAppend | test.py:85 | Keeping the last `k` after each append gives the last `k` of the whole sequence. |
| Deque.LastPrefixStep | test.py:85 | The same law for consecutive prefixes of the input. |
| Deque.WindowStep | test.py:85 | Appending to a window of at most `k` and dropping the oldest on overflow keeps the last `k`. |
| Deque.TailStep | test.py:85 | One loop step takes the last `k` of the first `i` lines to the last `k` of the first `i + 1`. |
| Deque.BoundedDeque.constructor | test.py:85 | A new deque is empty with the given `maxlen`. |
| Deque.BoundedDeque.Append | test.py:85 | An append adds on the right. If that exceeds `maxlen`, the leftmost element is dropped. The length bound is kept. |
| Deque.Tail | test.py:85 | Building the deque from the lines leaves exactly the last `k` lines, oldest first. |
| TailReader.RStrip | test.py:86 | `rstrip()` returns a prefix of the line. The prefix is empty or ends in a non-whitespace character, and everything removed is whitespace. |
| TailReader.RStripUnique | test.py:86 | Those three facts fix the result. |
| TailReader.RStripIdempotent | test.py:86 | Stripping a stripped line changes nothing. |
| TailReader.RStripKeepsFront | test.py:98-100 | Leading and inner characters survive stripping. |
| TailReader.RStripExamples | test.py:98-100 | "   hi   " becomes "   hi". A line ending in "\r\n", or in blanks and a tab before "\n", loses all of them. |
| TailReader.PrintLast10Lines | test.py:77-86 | A missing file gives `None`, the "file doesn't exist" branch. Otherwise the output is the file's last min(n, 10) lines, oldest first, each `rstrip`ped. |
| TailReader.FifteenLines | test.py:85 | A file of fifteen lines keeps lines six to fifteen. |

## Left out

- `os.path.join`, `os.path.isfile` and `open` (lines 78-84) touch the file system. The file is a parameter, `None` when the path does not name a regular file.
- Decoding the file's bytes into lines, with the platform's newline convention and text encoding: the model starts from the lines as Python yields them.
- An error raised while opening or reading the file (permissions, decoding): the script does not handle one, so it propagates out of the function. The model has no such outcome.
- `print` at lines 23-25, 27, 29, 49, 81 and 86: results are returned instead. The "file doesn't exist" message is the `None` result.
- The call at line 89 with a fixed Windows path: it depends on one machine's file system.
- The `ValueError` that `max` raises on an empty list is modelled as `None`, not as an exception.
- CPython's block-linked storage inside `collections.deque`: only its contents are modelled.
- The commented-out code at lines 31-38, 53-57 and 65-72 does nothing when run.
