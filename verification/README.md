# emmagrammer, modelled in Dafny

emmagrammer records which byte n-grams occur in some data. The centre is a
bit-set store: each n-gram over the symbols `0..gram_max` is read as a
base-`gram_max + 1` number, most significant symbol first. That number picks
one bit in a large byte array. A set of small tools surrounds the store:
- `ngramify` prints every length-n window of a file as a line of hex bytes
  under a `#key: value` header.
- `histogramify` counts those lines.
- `2gram_histo_to_csv` turns 2-gram histograms into 256×256 tables.
- `simichunks` intersects the chunk sets (the length-n substrings) of
  several files.
- The `emmagrammer` command line creates a store, stores and recalls
  n-grams, and builds a byte fold/transform table from range arguments.

This project models these parts as pure functions over sequences, maps and
bytes, and proves what each part promises:
- the store's sizing, addressing, bit setting and testing, and population
  count;
- the hex-token parsers;
- the header record and the check that opening a store applies;
- the text header format and the `print_header`/`read_header` round trip;
- the sliding window of `ngramify`;
- histogram counting and its output format;
- the 2-gram table reader and writer;
- the chunk-set algebra of `simichunks`;
- the `create`, `store`, `recall`, `ngramify` and `foltran` commands.

Files and modules:
- `wrappers.dfy` (`Wrappers`): `Option` and `Result`.
- `bytes.dfy` (`Bytes`): `uint8`, powers, lexicographic order, sorted unique lists.
- `hex_text.dfy` (`HexText`): hex tokens as `sscanf(" %x")` and `std::hex` read them, and number printing.
- `ngram_storage.dfy` (`NgramStorage`): `ngram-storage.c` without its mmap plumbing.
- `storage_header.dfy` (`StorageHeader`): the header written by `create_ngram_storage` and checked by `open_ngram_storage`.
- `ngram_parse.dfy` (`NgramParse`): `ngram_from_string_into` and `ngram_from_string`.
- `file_format.dfy` (`FileFormat`): `read_header`, `read_ngram_line`, `print_header`.
- `ngramify.dfy` (`Ngramify`): the `ngramify` tool.
- `histogramify.dfy` (`Histogramify`): the `histogramify` tool.
- `two_gram_csv.dfy` (`TwoGramCsv`): the `2gram_histo_to_csv` tool.
- `emmagrammer.dfy` (`Emmagrammer`): the `create`, `store`, `recall` and `ngramify` commands.
- `foltran.dfy` (`Foltran`): the `foltran` command.
- `simichunks.dfy` (`SimiChunks`): the `simichunks` tool.
- `findings.dfy` (`Findings`): two places where the code as written disagrees with its evident intent.

Conventions:
- Input and output are parameters and results: file contents, standard input and argument strings are sequences, and printed text is a string.
- Integers are unbounded.
- The wrap-around of `maxindex` is modelled separately, in `Findings`. The other wrap-arounds are listed under "Left out".
- A C assertion failure, an `exit`, or an exception that ends the program is an `Err` result.

## Model

| member | source | states |
|---|---|---|
| NgramStorage.MaxIndex | ngram-storage.c:11-17 | there are always at least two addresses: the (gram_max+1)^n n-gram addresses plus one guard slot |
| NgramStorage.CalcSize | ngram-storage.c:20-26 | the file is long enough that the byte holding the highest address below maxindex, and so every lower one, lies inside it after the header union, scratch buffer and fold table |
| NgramStorage.AddressBound | ngram-storage.c:155-160 | the mixed-radix address of an n-gram whose symbols are all at most gram_max is below (gram_max+1)^n |
| NgramStorage.NgramByteInRegion | ngram-storage.c:20-26 | the byte holding any valid n-gram's bit lies inside the region calc_size lays out, below maxindex - 1 |
| NgramStorage.DecodeAddress | ngram-storage.c:155-160 | decoding the address into n base-(gram_max+1) digits gives the n-gram back |
| NgramStorage.AddressInjective | ngram-storage.c:155-160 | distinct n-grams of one length have distinct addresses, even when the unchecked first symbol exceeds gram_max |
| NgramStorage.SetBit | ngram-storage.c:162 | after the OR, bit b is set exactly when it was set before or b is the chosen address; the length is unchanged |
| NgramStorage.Empty | ngram-storage.c:114-149 | a freshly created store is valid and has every bit clear |
| NgramStorage.Addr | ngram-storage.c:155-162 | the address of a reachable n-gram has its byte inside the bit array, and for an n-gram of symbols at most gram_max it is below maxindex - 1 |
| NgramStorage.ValidIsReachable | ngram-storage.c:155-162 | every n-gram of symbols at most gram_max passes the assertions and addresses a bit inside the array, below the guard slot |
| NgramStorage.Set | ngram-storage.c:151-166 | setting a reachable n-gram keeps the parameters and changes exactly that n-gram's bit |
| NgramStorage.SetThenContains | ngram-storage.c:151-179 | after set_ngram(g), find_ngram(h) is nonzero exactly when h is g or h was already present, for any reachable g and h |
| NgramStorage.SetIdempotent | ngram-storage.c:162 | setting the same n-gram twice equals setting it once |
| NgramStorage.EmptyContainsNothing | ngram-storage.c:114-149 | a fresh store reports no n-gram as present |
| NgramStorage.NgramAddress | ngram-storage.c:155-160 | the shared address loop succeeds exactly when the symbols after the first are at most gram_max and the position's byte is in the bit array, and then yields the address; otherwise it names the first later symbol above gram_max, or index 0 for a position past the array; every n-gram of symbols at most gram_max succeeds |
| NgramStorage.SetNgram | ngram-storage.c:151-166 | set_ngram succeeds exactly on reachable n-grams, which include all of symbols at most gram_max, and then equals Set |
| NgramStorage.FindNgram | ngram-storage.c:168-179 | find_ngram succeeds exactly on reachable n-grams; its masked byte is nonzero exactly when the n-gram is present, and is that bit's mask or 0; the store is not changed |
| NgramStorage.NibbleFoldCounts | ngram-storage.c:194-199 | the nibble-folding expression equals the number of 1-bits in the byte, which is at most 8 |
| NgramStorage.ByteBits | ngram-storage.c:193-200 | the eight addresses of a byte contribute its number of 1-bits to the set-bit count |
| NgramStorage.CountAfterSetBit | ngram-storage.c:162 | setting a bit raises the count of set bits below m by one exactly when the bit is new and below m |
| NgramStorage.PopulationCount | ngram-storage.c:188-202 | the loop scans maxindex/8 bytes and totals exactly the set bits of those bytes, at most 8 per byte |
| NgramStorage.DensityOf | ngram-storage.c:201 | the returned double is NaN exactly when no byte was scanned, and otherwise lies in [0, 8] |
| NgramStorage.PopulationCountAll | ngram-storage.c:188-202 | scanning the whole bit array totals every set bit the store can hold |
| NgramStorage.SetRaisesCount | ngram-storage.c:151-166 | storing a new reachable n-gram raises the whole-array count by exactly one; storing a present one leaves it unchanged |
| StorageHeader.MagicFitsField | ngram-storage.h:21 | the magic string and its terminator fit the 29-byte MAGIC field, which the open check then accepts |
| StorageHeader.CreateHeader | ngram-storage.c:134-141 | create writes the magic, version 1.3, gram_max, n, maxindex, SIZE and combinations = gram_max^n, plus the file's stat |
| StorageHeader.OpenCheck | ngram-storage.c:83-103 | open accepts exactly when the magic, SIZE, gram_max, n, maxindex and combinations match its recomputation and the stored dev, ino and size equal the live file's |
| StorageHeader.CreateThenOpen | ngram-storage.c:84-103 | opening a file created with the same parameters and not changed since succeeds |
| StorageHeader.TamperedFileRefused | ngram-storage.c:100-103 | a file whose device, inode or size changed is refused, naming the first field that differs |
| StorageHeader.ParameterChecksVacuous | ngram-storage.c:86-97 | read through one consistent mapping, the gram_max and n checks cannot fail |
| StorageHeader.VersionNotChecked | ngram-storage.c:85 | the version fields do not affect whether open succeeds |
| StorageHeader.AlignUp | ngram-storage.h:20-31 | a member's offset is the first multiple of its alignment at or after the end of the member before it |
| StorageHeader.CLayoutDisjoint | ngram-storage.h:20-31 | in a C layout every member is aligned and no two members overlap |
| StorageHeader.HeaderLayout | ngram-storage.h:17-35 | every header field lies inside the 1<<16-byte union, and the scratch buffer, fold table and bit array follow in that order |
| HexText.SkipSpace | fileformat.cc:27 | skipping white space ends on the first non-space character or at the end of the text |
| HexText.ScanHex | ngram-storage.c:35 | a hex conversion fails exactly when, after white space, the text ends or holds no hex digit; on success its value is a run of hex digits |
| HexText.ScanRunAt | ngram-storage.c:35 | a conversion that starts on a maximal run of hex digits reads exactly that run |
| HexText.NatToHex | histogramify.cc:48 | printing a number in hex gives hex digits whose value is the number |
| HexText.LeadingZeros | histogramify.cc:48 | zero padding does not change a hex value |
| HexText.DecimalRoundTrip | ngramify.cc:16 | the decimal digits printed for n read back as n |
| HexText.PrintParseUnsigned | histogramify.cc:40 | a printed n below 2^32 is read back by lexical_cast<unsigned int> as n |
| HexText.ScanCell | ngramify.cc:33 | a space and a two-column hex cell, followed by a non-digit, read back as the byte |
| NgramParse.NgramFromStringInto | ngram-storage.c:28-41 | returns the low bytes of the first n tokens right after the n-th token, and NULL exactly when the text has fewer than n tokens (at least one token is always stored) |
| NgramParse.NgramFromString | ngram-storage.c:44-59 | reads up to MAX_NGRAM_BUFFER tokens into the buffer, keeps their low bytes, and fails exactly when fewer than n were read |
| NgramParse.DemoShortString | example.c:48-51 | "0a  AD" holds only the two tokens 0x0a and 0xad, so it is too short for n = 3 |
| FileFormat.GetLine | fileformat.cc:9 | getline fails exactly at the end of input; otherwise it returns a line without a newline and consumes input |
| FileFormat.ParseHeaderLineIff | fileformat.cc:11-15 | a line gives (k, v) exactly when it is "#" + k + ": " + v and k holds no ": " |
| FileFormat.LastValueWins | fileformat.cc:11-14 | a repeated key keeps the value of its last line |
| FileFormat.ReadHeaderOfLines | fileformat.cc:5-19 | read_header applies the lines up to the first empty one and leaves exactly the text after it unread |
| FileFormat.ReadHeaderWellFormed | fileformat.cc:5-19 | every key and value read_header returns is free of line breaks and every key is free of ": " |
| FileFormat.SortedKeys | histogramify.cc:41-43 | a map's keys in iteration order: each key exactly once, in ascending order |
| FileFormat.ReadHeaderText | histogramify.cc:41-44 | printing a header map and an empty line, then reading it back, gives the same map and the following text |
| FileFormat.ReadNgramAt | fileformat.cc:21-32 | read_ngram_line succeeds exactly when n hex values can be read, and returns the low 8 bits of each |
| FileFormat.ReadHexRow | fileformat.cc:21-32 | a row of bytes printed as " %02X" cells reads back as those bytes |
| FileFormat.PrintedLinesJoin | ngramify.cc:14-21 | print_header writes "#type: n-grams", "#n: n", "#fname: name" only when a name is given, then a blank line |
| FileFormat.PrintThenReadHeader | ngramify.cc:14-21 | read_header applied to print_header's output yields exactly {type: n-grams, n, and fname when given} and leaves the rest unread |
| Ngramify.FormatLineRoundTrip | ngramify.cc:33-42 | every printed line, verbose or not, reads back as its window |
| Ngramify.RingWindowIs | ngramify.cc:33 | when slot j % n holds data[j], reading the slots from skip gives data[skip..skip+n] |
| Ngramify.RingAdvance | ngramify.cc:43 | refilling the oldest slot with the next byte moves the window on by one |
| Ngramify.Windows | ngramify.cc:31-44 | there are L-n+1 windows for input length L >= n and none otherwise, window k being bytes k..k+n-1 |
| Ngramify.Fill | ngramify.cc:31 | the first loop fills the n slots with the first bytes and hits end of file exactly when the input is shorter than n |
| Ngramify.Slide | ngramify.cc:32-44 | the ring-buffer loop emits exactly the windows, in order |
| Ngramify.NgramifyLines | ngramify.cc:24-46 | ngramify prints one formatted line per window, in order |
| Ngramify.Run | ngramify.cc:49-93 | n < 1 is rejected, n >= 1024 prints the header and then fails the assertion, otherwise the header is followed by the window lines |
| Ngramify.OutputReadable | ngramify.cc:85-86 | the output reads back through read_header as the printed header, and through read_ngram_line as each window |
| Histogramify.OrderedSorted | histogramify.cc:15 | map entries are in strictly ascending n-gram order, one per distinct n-gram |
| Histogramify.Increment | histogramify.cc:26 | histogram[g] += 1 raises g's count by one, leaves every other count alone and keeps the order |
| Histogramify.IncrementTotal | histogramify.cc:26 | each increment raises the sum of the counts by one |
| Histogramify.CountAll | histogramify.cc:22-31 | the counting loop succeeds exactly when every line parses; it then counts each n-gram as often as it was read, so the counts sum to the number of lines; otherwise it stops at the first failed line |
| Histogramify.CreateHistogram | histogramify.cc:17-34 | create_histogram reports the first unparseable line, or returns an ordered histogram whose counts are the multiplicities of the parsed n-grams and sum to the number of lines |
| Histogramify.Histogramify | histogramify.cc:36-56 | the run succeeds exactly when the header has type "n-grams" and an n that parses and every data line reads as an n-gram; a missing type, another type, a missing n, an unparsable n and a bad data line each give their own error, the last being create_histogram's; on success the header is the input header with type "n-grams histogram" and n comes from the header |
| Histogramify.EntryLineReadsBack | histogramify.cc:45-49 | each output entry reads back through read_ngram_line as its n-gram |
| Histogramify.RenderReadsBack | histogramify.cc:41-49 | the output reads back as the rewritten header, followed by one line per entry in histogram order |
| Histogramify.ReportGramsHaveLengthN | histogramify.cc:40 | every n-gram of a successful run has length n |
| Histogramify.CountedIsRead | histogramify.cc:45-49 | every printed entry has a positive count |
| TwoGramCsv.Fresh | 2gram_histo_to_csv.cc:12-21 | a fresh Entry has all 256×256 cells equal to 0 |
| TwoGramCsv.ReadLines | 2gram_histo_to_csv.cc:38-50 | the data loop succeeds exactly when every line names a 2-gram, else stops at the first refused line; only named cells are assigned |
| TwoGramCsv.LastLineWins | 2gram_histo_to_csv.cc:42-43 | a cell holds the count read on the last line that names it |
| TwoGramCsv.UnnamedCellIsZero | 2gram_histo_to_csv.cc:12-14 | a cell that no line names stays 0 |
| TwoGramCsv.Reader | 2gram_histo_to_csv.cc:31-52 | reader_fun keeps the header read_header returns |
| TwoGramCsv.ReadsHistogramLine | 2gram_histo_to_csv.cc:41-42 | a histogramify line for a 2-gram names that 2-gram with its hex count |
| TwoGramCsv.HistogramTable | 2gram_histo_to_csv.cc:31-52 | a 2-gram histogram printed by histogramify reads back as a table holding each entry's count in its cell and 0 elsewhere |
| TwoGramCsv.Linearise | 2gram_histo_to_csv.cc:55-60 | writer_fun emits 65536 values with cell (x,y) at position y*256+x |
| TwoGramCsv.ReadAll | 2gram_histo_to_csv.cc:71 | all files are read before anything is written; the first file that fails is reported |
| TwoGramCsv.WriteAll | 2gram_histo_to_csv.cc:54-63 | when every table has "fname", the output is the rows of all tables in file order; otherwise the run stops at the first table without "fname", having printed exactly the rows of the tables before it |
| TwoGramCsv.Run | 2gram_histo_to_csv.cc:65-74 | no file argument is a usage error; a bad data line prints nothing; on success every file was read and the output is all rows in file order; a missing "fname" prints the rows before the first table lacking it |
| Emmagrammer.Create | emmagrammer.c:192-212 | create succeeds exactly for gram_max in [1,255] and n in [1,16], checking gram_max first, and yields an empty store with those parameters |
| Emmagrammer.GramsAgree | emmagrammer.c:48 | for 1 <= n <= MAX_NGRAM_BUFFER the two parsers hand the same n-gram to the store |
| Emmagrammer.StoreGram | ngram-storage.c:28-41 | a line is refused exactly when it has fewer than max(n, 1) hex tokens; otherwise byte i is the low byte of token i |
| Emmagrammer.RecallGram | ngram-storage.c:44-59 | a line is refused exactly when fewer than n tokens fit the 0x1000-byte buffer; otherwise byte i of the looked-up n-gram is the low byte of token i |
| Emmagrammer.ParseStoreLine | emmagrammer.c:48 | the parser loop `ngram_from_string_into` gives exactly StoreGram |
| Emmagrammer.ParseRecallLine | emmagrammer.c:91-97 | the parser loop `ngram_from_string`, cut to the n bytes `find_ngram` reads, gives exactly RecallGram |
| Emmagrammer.StoreAll | emmagrammer.c:46-60 | the store loop succeeds exactly when every parsed n-gram is reachable, including one whose unchecked first symbol exceeds gram_max but whose bit lies in the array; otherwise it stops at the first line that fails an assertion or lies past the array |
| Emmagrammer.FirstSymbolUnchecked | emmagrammer.c:46-60 | with gram_max 2 and n 3, the line `03 00 00` (address 27, in the last byte of the array) is stored and then found by recall |
| Emmagrammer.StoredContents | emmagrammer.c:46-60 | after storing, an n-gram is present exactly when it was before or some line held it |
| Emmagrammer.RecallAll | emmagrammer.c:88-111 | counter counts every line, parsed or not, and found is the number of lines whose n-gram the store holds; the first line that fails an assertion or lies past the array stops the loop, and every earlier n-gram was reachable |
| Emmagrammer.StoreLines | emmagrammer.c:45-60 | `store` over input lines succeeds exactly when every parsed n-gram is reachable, and then the store holds exactly what it held before plus every line's n-gram; otherwise the first failing line is named, and all earlier n-grams were reachable |
| Emmagrammer.RecallLines | emmagrammer.c:88-111 | `recall` over input lines counts every line and finds exactly the lines whose n-gram is held; otherwise the first line that fails an assertion or lies past the array is named |
| Emmagrammer.StoreThenRecall | emmagrammer.c:46-111 | recalling the lines just stored finds every line that parses, and counts every line |
| Emmagrammer.CommandNgramify | emmagrammer.c:117-134 | one " %02X" line per window, in order, each reading back as its window |
| Foltran.PairRoundTrip | emmagrammer.c:154 | two hex numbers around a separator are read back by the two-conversion sscanf |
| Foltran.RangeRoundTrip | emmagrammer.c:154-163 | an argument written as x-y or x~y parses back as that range |
| Foltran.NotDash | emmagrammer.c:154 | a tilde argument does not match the dash form |
| Foltran.DashLoop | emmagrammer.c:155-162 | a dash range fails exactly when it reaches byte 256 before tpos reaches 256, naming that byte; tpos never decreases |
| Foltran.DashLoopCount | emmagrammer.c:160-161 | a dash range assigns y-x+1 codes, or stops exactly when tpos reaches 256 |
| Foltran.DashLoopTable | emmagrammer.c:155-162 | byte x+i of a dash range gets code tpos+i, and every other byte keeps its value |
| Foltran.TildeLoop | emmagrammer.c:163-172 | a tilde range gives every byte of x..y the same code tpos, or fails on a byte above 255; only a tpos of 256 or more stops it |
| Foltran.ApplyKeeps | emmagrammer.c:155-171 | a range leaves every byte outside it alone |
| Foltran.BuildOne | emmagrammer.c:153-177 | a single range argument builds exactly that range |
| Foltran.UnnamedEntryKept | emmagrammer.c:153-177 | a table entry that no argument names keeps its previous value |
| Foltran.StopsAtUnparsed | emmagrammer.c:173-176 | the first unparseable argument ends table building, and later arguments are ignored |
| Foltran.Run | emmagrammer.c:138-189 | no range argument is a usage error, and the output has one byte per input byte |
| Foltran.TranslateInput | emmagrammer.c:183-187 | each input byte b is output as ftable[b] |
| Foltran.FullDash | emmagrammer.c:155-162 | 0-ff starting from tpos 0 gives every byte its own value |
| Foltran.IdentityRange | emmagrammer.c:138-189 | `foltran 0-ff` copies its input unchanged, whatever the table held |
| Foltran.FoldAllRange | emmagrammer.c:163-172 | `foltran 0~ff` maps every byte to 0 |
| Foltran.OverlongDash | emmagrammer.c:155-161 | 1-100 is refused as an illegal value, while 0-100 stops cleanly once tpos reaches 256 |
| SimiChunks.Windows | simichunks.cc:89-91 | the chunker yields |data|-n+1 chunks, which are exactly the length-n substrings; when the end position would underflow, it fails |
| SimiChunks.CalculateChunks | simichunks.cc:167-175 | calculate_chunks returns the strictly sorted list of all distinct length-n substrings of the data |
| SimiChunks.FirstBadLength | simichunks.cc:209-213 | finds a chunk whose length is not n exactly when one exists, and it is the first such chunk in list order: every chunk before it has length n |
| SimiChunks.FirstInSortedOrder | simichunks.cc:209-213 | in a sorted unique list, the first wrong-length chunk is the smallest: every chunk below it has length n |
| SimiChunks.ReadChunkSet | simichunks.cc:191-214 | a different stored N is refused; otherwise a chunk of the wrong length is refused with BadLength, naming the smallest such chunk (every stored chunk below it has length n); these are the only errors; otherwise the stored chunks come back sorted and unique |
| SimiChunks.Intersect | simichunks.cc:239 | the intersection of sorted unique lists is sorted, unique and holds exactly the common chunks |
| SimiChunks.Difference | simichunks.cc:280 | the difference is sorted, unique and holds exactly the chunks of the first list not in the second |
| SimiChunks.InitialChunks | simichunks.cc:229-249 | the initial set is the first file's chunks, intersected with the storage set when one is loaded |
| SimiChunks.NarrowedChunks | simichunks.cc:260-274 | after the loop, a chunk remains exactly when it was in the initial set and occurs in every further file whose chunks could be computed |
| SimiChunks.Run | simichunks.cc:252-282 | with no file name the program fails, and the result is sorted and unique |
| SimiChunks.RunChunks | simichunks.cc:252-282 | the chunks reported are exactly those of length n that occur in the first file and in every readable further file, are in the storage set if one is loaded, and are not in the subtract set |
| SimiChunks.EmptyChunks | simichunks.cc:89-91 | with n = 0 the only chunk is the empty one |
| Findings.MaxIndexExact | ngram-storage.c:11-17 | while (gram_max+1)^n + 1 fits in 64 bits, the wrapping computation gives the exact value |
| Findings.MaxIndexWraps | ngram-storage.c:11-17 | `create 255 8` is accepted, but 256^8 wraps so maxindex is 1, while the exact value is 2^64 + 1 |
| Findings.PopulationCountMissesLastByte | ngram-storage.c:193 | with gram_max 2 and n 3, the stored n-gram 02 02 00 lies beyond the bytes population_count scans: that count stays 0 while the whole-array count is 1 |

## Left out

- The mmap, munmap, msync, ftruncate, fopen and stat calls are operating-system I/O. The stored header is a record and `open`'s checks are a pure function of it and the live (dev, ino, size).
- StorageHeader.Header: `gram_max` and `n` are `int` fields (ngram-storage.h:24-25), and `open_ngram_storage` reads them without a sign check (ngram-storage.c:86-87). The model holds them as naturals, so a corrupted file with a negative stored value is not modelled. In the source such a value reaches `calc_max_index` unchanged: gram_max = -1 gives maxindex 1, and n <= 0 gives 2.
- `combinations` is a `long double` computed with `powl`. It is held as the exact integer gram_max^n.
- `close_ngram_storage` decrements the usage counter and syncs. This is I/O teardown.
- Conversions are simplified to optional white space followed by a maximal run of hex digits. The full `sscanf %x` / `std::hex` grammar (a `0x` prefix, a sign, overflow past the integer width) is not modelled, nor is `%x` stored into a signed `int` (foltran's negative values).
- Command-line and program plumbing is not modelled: `main` and `usage` dispatch, `getopt`, `atoi`, `boost::lexical_cast` (beyond decimal digits below 2^32), exit codes beyond the error values, and the `printf` tracing output.
- `command_store` and `command_recall` with a single n-gram argument (argc == 3) are not modelled. Only the line-reading form is.
- Reading lines with `fgets` into a 2048-byte buffer is not modelled; longer lines would be split. Lines are whole strings.
- `command_store` prints `storage->combinations` before checking `storage` for NULL. This is a crash in the driver, not core logic.
- Emmagrammer.StoreAll: a first symbol whose position lies past the bit array is an error. The source writes outside the array there, which is undefined behaviour. A first symbol above gram_max whose bit lies inside the array is stored, as the source does.
- Emmagrammer.RecallAll: a first symbol whose position lies past the bit array is an error. The source reads outside the array there. Inside the array the bit is tested and counted, as the source does.
- NgramStorage.Addr: the position is computed exactly, without the 64-bit wrap of `pos`. For symbols at most gram_max the wrap cannot happen once `maxindex` is exact. The wrap of `maxindex` itself is the first finding. A first symbol above gram_max with a large n can wrap `pos`: with gram_max 16 and n 15, first symbol ff gives 255·17^14 > 2^64. The model then reports the exact position, past the bit array, not the wrapped one.
- The `foltran` table persisted in the storage file is not modelled. The initial table is a parameter `initial`, which covers both the stored table and the uninitialised local array.
- `foltran`'s translation indexes `ftable[getchar()]`. Input is a byte sequence.
- `ngramify`: `isprint` is applied to a `char` that may be negative. The model takes the C locale's 0x20..0x7e.
- `ngramify`'s `unsigned int skip` wraps after 4 GiB of input. This is not modelled.
- The `%8ld` field of `histogramify` prints a signed value. Counts are naturals.
- Byte order beyond ASCII in `std::string` comparison is not modelled. Chunks are compared as unsigned bytes, lexicographically.
- `simichunks`: the following are I/O or foreign libraries and are not modelled:
  - `cli_parse`;
  - file loading in the `Chunker` constructor (a file that does not load is `None`);
  - jsoncpp reading and writing (a stored set is (N, chunks));
  - writing the result back to the storage file;
  - console rendering.
- `simichunks`: an unopenable or invalid subtract file is not modelled. A subtract set is given or absent.
- `2gram_histo_to_csv`: `count` starts uninitialised. It is the parameter `initial`.
- histogram.c, histogram.h and simple-histogram.cc are not part of this model. They do double-valued normalisation and file output.
- example.c is used only for concrete values (`NgramParse.DemoShortString`).
- NgramStorage.DensityOf: `population_count` returns the `double` `(double)count / i` (ngram-storage.c:201). The model returns the exact rational quotient. The double's rounding is not modelled; its NaN for i = 0 is.
- StorageHeader.VersionNotChecked: `open_ngram_storage` leaves the version check as a `TODO` (ngram-storage.c:85: major equal, minor at least). The model follows the code, and the version fields do not affect open.
- NgramStorage.DensityOf: the quotient's denominator is `i`, the number of bytes the loop scanned (ngram-storage.c:193, 201), not the number of addresses. Each byte holds up to 8 set bits, so the value lies in [0, 8], not [0, 1].

## Findings

| source | as written | input that shows it | evidently intended | confidence | as-written member | corrected member |
|---|---|---|---|---|---|---|
| ngram-storage.c:11-17 | `maxindex *= (gram_max + 1)` in a `uint64_t` wraps modulo 2^64, and `create` accepts parameters up to gram_max 255, n 16 | `create 255 8`: 256^8 = 2^64 wraps to 0, so maxindex = 1 and the bit array is one byte long, while n-gram ff×8 addresses bit 2^64 - 1 | maxindex = (gram_max+1)^n + 1, so every valid n-gram's bit is inside the file | not executed; high | Findings.MaxIndexWraps | NgramStorage.NgramByteInRegion |
| ngram-storage.c:193 | the popcount loop scans `maxindex / 8` bytes, but the bit array has `maxindex / 8 + 1` bytes and addresses run up to maxindex - 2 | gram_max 2, n 3: maxindex = 28, 3 bytes are scanned (addresses 0..23), but n-gram 02 02 00 has address 24; after storing it the count is 0 | every stored n-gram is counted | not executed; high | Findings.PopulationCountMissesLastByte | NgramStorage.SetRaisesCount |
