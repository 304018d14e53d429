# donkey, modelled in Dafny

donkey is a similarity-search server. Clients insert objects (images or
text, each turned into one or more feature vectors by an extractor plugin)
and search for the objects most similar to a query object. This project
models the core of its C++ engine and of its two Node.js front ends, and
proves properties of that model:

- **Index engines.**
  - The pre-allocated LSH arena of `src/lsh.h`: buckets are append-only chains of 31-slot blocks. The model covers its sizing arithmetic, out-of-memory and the polarity-dependent threshold scan.
  - Its `LSHIndex` adapter, with the stub hash.
  - The search-only k-NN graph of `src/kgraph_lite.cpp`: random start points, the sorted candidate list, the greedy walk with its epsilon cut and the graph-file decoder.
  - The watermark index of `src/index-kgraph.cpp`: a graph over the older entries plus a linear scan of the newer ones.
  - The inverted index of exact feature values.
- **Data model and matchers.**
  - Similarity polarity.
  - The byte layouts of vector features, multi-part objects and text objects, with decode(encode(x)) = x.
  - The Hamming distances.
  - The trivial, counting and earth mover's distance matchers.
- **Server tools.**
  - `-D key=value` overrides and the URL-scheme test.
  - Object-source dispatch and `host:port` splitting.
  - Index defaults.
  - The `at_most` guard and the performance counters.
  - The proxy's backend file and round-robin retry.
  - The client's insert-line split.
  - The ANSI colour strings of ECMA-48 section 8.3.117.
- **HTTP helpers.**
  - Percent-encoding (RFC 3986 sections 2.1 and 2.3) and the query dictionary (RFC 3986 section 3.4).
  - The multipart/form-data parser (RFC 2046 section 5.1.1, RFC 7578 section 4.2).
  - The HTTP/1.1 response serialiser (RFC 7230 sections 3.1.2, 3.2 and 3.3.2).
  - The plugin pipeline that turns an exception into status 404.
- **Integer parts of feature extraction.**
  - The digit-by-digit integer square root.
  - The top-K binary sketch.
  - Image size clamping.
  - Per-region pixel counts and bounding boxes.
- **Node.js front ends.** Pagination, search-id allocation and the search cache.

Every operation is sequential. Where the source changes state in place (the
arena, the graph buffers, the indexes, the streams, the counters, the cache), the
model is a class or an array method whose `ensures` ties the new state to
a function of the old one; properties are then lemmas about those
functions. Exceptions and `BOOST_VERIFY` failures are `Result` errors
(`Wrappers.Error`). Calls into libraries whose code is not part of this
model (kgraph, emd_hat, json11, the Thrift backend, the lru-cache package)
are function parameters or input values.

One file per source file, with shared helpers in `wrappers.dfy`,
`strings.dfy`, `bytes.dfy`, `bits.dfy`, `arith.dfy`, `floats.dfy`,
`sorting.dfy` and `index.dfy`.

## Model

| member | source | states |
|---|---|---|
| Console.Color | src/console.h:40-46 | the result is ESC `[` … `m`, and reading it back as an SGR sequence gives exactly the three parameters attr, fg + 30, bg + 40 |
| Console.ConstantSequences | src/console.h:48-50 | `reset`, `underline` and `bold` are the single-parameter SGR sequences 0, 4 and 1 |
| Console.BlueOnBlack | src/console.h:15-46 | color(Reset, Blue, Black) is ESC `[0;34;40m` |
| Console.SgrFrame | src/console.h:44 | the parameters of ESC `[` inner `m` are those written in inner |
| Client.SplitInsertLine | src/client.cpp:68-86 | "Bad line" exactly when the line has no tab or its only tab is the last character; otherwise key and url hold no tab, the line starts with key TAB url, and a non-empty meta is everything after the second tab |
| Client.SplitJoin | src/client.cpp:68-86 | splitting a line written as key TAB url [TAB meta] gives back key, url and meta (the meta may hold tabs; the key may be empty) |
| Client.TrailingTabDropsMeta | src/client.cpp:84-86 | a tab right after the url leaves the meta empty |
| Client.CommandFor | src/client.cpp:62-144 | `ping`, `insert` and `search` select their own requests, each exactly for its own name; every other name is sent as a misc request carrying that name |
| Wrappers.ErrorCode | src/donkey.h:27-37 | only UnknownError has a code, and it is 0x0001 |
| DonkeyRuntime.AtMost.constructor | src/donkey.h:61-62 | a new helper keeps max and starts at count 0 |
| DonkeyRuntime.AtMost.Call | src/donkey.h:63-66 | a call adds one to the 32-bit count, wrapping from INT_MAX to INT_MIN, and fires iff the new count is at most max |
| DonkeyRuntime.CallRepeatedly | src/donkey.h:56-66 | on a helper that has counted c calls, the k-th of n more calls (from 1) fires iff c + k, wrapped into 32 bits, is at most max |
| DonkeyRuntime.FreshCalls | src/donkey.h:56-66 | on a fresh helper the k-th call fires iff k <= max, for the first 2^31 - 1 calls |
| DonkeyRuntime.WrappedCallFires | src/donkey.h:63-65 | the 2^31-th call on a fresh helper wraps the count to INT_MIN and fires again, whatever max is |
| DonkeyRuntime.RunningMinIsMinimum | src/donkey.h:96-110 | started from DBL_MAX, the running minimum of finite values is one of the values added and no larger than any of them |
| DonkeyRuntime.RunningMaxIsMaximum | src/donkey.h:95-109 | started from -DBL_MAX, the running maximum is one of the values added and no smaller than any of them |
| DonkeyRuntime.HistorySnoc | src/donkey.h:105-111 | adding one more value adds it to the sum, its square to the sum of squares, and updates the running extremes by one comparison each |
| DonkeyRuntime.PerformanceCounter.constructor | src/donkey.h:93-96 | m0 = m1 = m2 = 0, min = DBL_MAX, max = -DBL_MAX, and no value added yet |
| DonkeyRuntime.PerformanceCounter.AddOne | src/donkey.h:105 | add() with its default argument 1.0: the same updates with v = 1 |
| DonkeyRuntime.PerformanceCounter.Add | src/donkey.h:105-111 | m0 += 1, m1 += v, m2 += v², the extremes updated; the invariant (m0 = count, m1 = sum, m2 = sum of squares, min/max = running extremes) is kept |
| DonkeyRuntime.CounterRegistry.Create | src/donkey.h:93-99 | a new counter, fresh and empty, joins the active set |
| DonkeyRuntime.CounterRegistry.Destroy | src/donkey.h:100-103 | the destroyed counter leaves the active set and nothing else does |
| DonkeyRuntime.CounterRegistry.Perf | src/donkey.h:113-125 | one report per active counter: every active counter is reported, and every report is of an active counter |
| DonkeyServer.Config.Put | src/donkey.cpp:33 | `put` sets the value under the path and leaves every other path alone |
| DonkeyServer.ParseOverride | src/donkey.cpp:28-33 | a bad parameter exactly when there is no `=`, `=` comes first, or the first `=` is the last character; otherwise key `=` value is the entry, with a non-empty key free of `=` and a non-empty value |
| DonkeyServer.OverrideConfig | src/donkey.cpp:26-35 | succeeds iff every entry parses, and then the configuration is the old one with every override put in order; on failure the entries before the first bad one have been put and nothing after it |
| DonkeyServer.UntouchedKey | src/donkey.cpp:26-35 | a key that no override names keeps its old value, or stays absent |
| DonkeyServer.LastOverrideWins | src/donkey.cpp:27-33 | the last override that names a key decides its value |
| DonkeyServer.ApplyConcat | src/donkey.cpp:27 | putting a + b is putting a and then b |
| DonkeyServer.TestUrl | src/donkey.cpp:37-42 | true iff the text starts with `http://`, `https://` or `ftp://` |
| DonkeyServer.GetInt | src/donkey.cpp:56 | the configured value when present and readable as an int, the default when absent |
| DonkeyServer.IndexDefaults | src/donkey.cpp:55-61 | accepted iff hint_K (default 1) is positive and hint_R is normal; otherwise a ConfigError |
| DonkeyServer.DefaultsExamples | src/donkey.cpp:56-60 | with nothing configured hint_K = 1 is accepted, and hint_R = 0 is refused as not normal |
| DonkeyServer.TmpModel | src/donkey.cpp:63-72 | the model starts with the directory, ends in `/` and the `%%%%-%%%%-%%%%-%%%%` pattern, and adds a `/` only when the directory lacks one |
| DonkeyServer.TmpModelSlash | src/donkey.cpp:71 | a directory with and without its trailing `/` give the same model |
| DonkeyServer.DefaultTmpModel | src/donkey.cpp:70-72 | with no `donkey.tmp_dir` the model is `./%%%%-%%%%-%%%%-%%%%` |
| DonkeyServer.LoadObject | src/donkey.cpp:94-142 | url and content both set is a RequestError before anything else; then one clause per arm: content is extracted (raw) or read; a URL is extracted or downloaded and read when wget succeeds, and is ExternalError(url) when it fails; any other url is extracted or read as a local path; only a failed download is an ExternalError |
| DonkeyServer.ContentWins | src/donkey.cpp:107-122 | a request with content and no url is served from the content, raw or not |
| DonkeyServer.SplitAddress | src/donkey.cpp:144-153 | with no `:`, or the first `:` last, the whole text is the host and the port is -1; otherwise the host is the text before the first `:` and the port the parsed rest, an error exactly when that rest is not an int |
| DonkeyServer.SplitAddressRoundTrip | src/donkey.cpp:144-153 | host `:` port splits back into host and port for every colon-free host and 32-bit port |
| Strings.Find | src/client.cpp:68-73 | `find(c, from)`: the first position at or after from holding c, or none when there is no such position |
| Strings.FindStr | src/donkey.cpp:28 | `find(pat, from)`: the first position at or after from where pat occurs, or none |
| Strings.TrimLeft | src/proxy.cpp:58 | the result is a suffix of the input that does not start with whitespace, and everything dropped is whitespace |
| Strings.TrimRight | src/proxy.cpp:58 | the result is a prefix of the input that does not end in whitespace, and everything dropped is whitespace |
| Strings.Trim | src/proxy.cpp:57 | `boost::trim`: the result is a contiguous part of the input with only whitespace cut from either side, and neither of its ends is whitespace |
| Strings.ParseInt | src/donkey.cpp:152 | `lexical_cast<int>`: a value is read only when it fits in 32 bits, from non-empty text that starts with `-` exactly for a negative value (or `-0`) |
| Strings.ParseIntForm | src/donkey.cpp:152 | every accepted text is an optional sign, leading zeros and the printed magnitude of the value read, with the sign agreeing with the value |
| Strings.ParseIntAccepts | src/donkey.cpp:152 | every optional sign, zeros and printed number is accepted iff its signed value fits in 32 bits, and then reads as that value |
| Strings.ParseIntRoundTrip | src/donkey.cpp:152 | every 32-bit int printed in decimal parses back to itself |
| Strings.IntToDecimal | src/console.h:44 | `%d`: non-empty, and starts with `-` exactly for a negative value |
| Strings.NatToDecimal | src/console.h:44 | `%d` of a non-negative value: all digits, with a leading 0 only for 0 |
| Strings.NatToDecimalValue | src/console.h:44 | the printed digits denote the value printed |
| Proxy.LessTotal | src/proxy.cpp:46 | string `<` orders any two distinct strings one way or the other (with LessIrreflexive, LessTransitive and LessAsymmetric: a strict total order, as `std::set<string>` needs) |
| Proxy.SetInsert | src/proxy.cpp:64 | `set::insert` keeps the set sorted and duplicate-free, reports true iff the address was absent, adds exactly that address, and leaves the set alone otherwise |
| Proxy.NextToken | src/proxy.cpp:60-63 | `>>` yields a token without whitespace and a rest no longer than the input |
| Proxy.NextTokenShape | src/proxy.cpp:60-63 | `>>` skips leading whitespace and takes the longest whitespace-free token; the token is empty exactly when only whitespace is left |
| Proxy.AddressAndTag | src/proxy.cpp:60-63 | the address is the first whitespace-free token of the line; the tag is the next one, "" exactly when nothing but whitespace follows, and there is no tag without an address |
| Proxy.AddPair | src/proxy.cpp:64-66 | `dict[tag].insert(address)` keeps every tag's set sorted and non-empty |
| Proxy.AddPairStores | src/proxy.cpp:64 | after a line is added its (tag, address) pair is present |
| Proxy.AddPairPresent | src/proxy.cpp:64-66 | adding a pair that is already present changes neither the dictionary nor the count |
| Proxy.RepeatedLine | src/proxy.cpp:64-66 | a line read a second time in a row changes neither the dictionary nor the count |
| Proxy.CommentLine | src/proxy.cpp:53-59 | a line that is a comment from its first character changes nothing |
| Proxy.LoadBackendFile | src/proxy.cpp:51-67 | the loop over the lines ends in LoadLines of all the lines |
| Proxy.LoadStep | src/proxy.cpp:52-66 | one round of the loop turns LoadLines of the first i lines into LoadLines of the first i + 1 |
| Proxy.BackendSet.constructor | src/proxy.cpp:74-78 | a backend set holds its tag and addresses, with cnt = 0 |
| Proxy.BackendSet.SearchWithRetry | src/proxy.cpp:15-33 | the answer and the attempts made are those of RetryFrom on the counter value at entry, and cnt advances by one per attempt, wrapping at 2^32 |
| Proxy.RetryStep | src/proxy.cpp:16-30 | an attempt that answers ends the retries with its answer; a failed attempt or a null client goes on to the next |
| Proxy.RetryFirstAnswer | src/proxy.cpp:15-33 | at most `retry` attempts; the search answers iff some attempt below `retry` answers, and then with the first answer, after failures only |
| Proxy.RoundRobin | src/proxy.cpp:17-18 | attempt k asks `addresses[(cnt0 + k) mod size]`, so consecutive attempts visit consecutive backends |
| Proxy.ProxyService.Search | src/proxy.cpp:93-97 | forwards to the first backend set; its answer is returned, and exhausted retries are a ProxyBackendError |
| Proxy.ProxyService.Insert | src/proxy.cpp:89-91 | always NotImplementedError("insert") |
| Proxy.ProxyService.Misc | src/proxy.cpp:110-112 | always NotImplementedError("insert"), the message the source uses |
| Proxy.NewProxy | src/proxy.cpp:43-81 | more than one tag throws NotImplementedError; otherwise one backend set per tag, holding that tag's addresses sorted ascending without duplicates, with cnt = 0, and the configured retry |
| DonkeyCommon.Polarity | src/donkey-common.h:12-26 | POLARITY is +1 for PositiveSimilarity and −1 for NegativeSimilarity, and nothing else |
| DonkeyCommon.SimilarityOf | src/donkey-common.h:50-124 | Cosine is the only positive similarity; L1, L2, Hamming, TypeHamming and BitHamming derive from Distance |
| DonkeyCommon.MatcherPolarity | src/donkey-common.h:233-249 | TrivialMatcher takes its feature similarity's polarity, CountingMatcher is +1, EMDMatcher −1 |
| DonkeyCommon.DistancesAreNegative | src/donkey-common.h:68 | every distance has polarity −1, and so does a trivial matcher over it |
| DonkeyCommon.FeatureBytes | src/donkey-common.h:39-41 | `write` emits exactly DIM·sizeof(T) bytes |
| DonkeyCommon.FeatureRoundTrip | src/donkey-common.h:35-41 | read(write(f)) = f |
| DonkeyCommon.FeatureBytesOf | src/donkey-common.h:35-41 | write(read(s)) = s for every byte string of DIM·sizeof(T) bytes |
| DonkeyCommon.WriteFeature | src/donkey-common.h:39-41 | the stream grows by exactly the feature's bytes |
| DonkeyCommon.ReadFeature | src/donkey-common.h:35-37 | with enough bytes the feature is read from the next DIM·sizeof(T) of them; a short read fails the stream and extracts what is left; a failed stream changes nothing |
| DonkeyCommon.HammingSymmetric | src/donkey-common.h:97-121 | the Hamming distance is symmetric |
| DonkeyCommon.HammingZero | src/donkey-common.h:97-121 | the Hamming distance is 0 iff the features are equal |
| DonkeyCommon.HammingBound | src/donkey-common.h:97-121 | with w-bit words the distance is at most w per word (32·D for 32-bit words) |
| DonkeyCommon.TypeHammingProperties | src/donkey-common.h:123-135 | TypeHamming lies in 0..D, is symmetric, and is 0 iff the features are equal |
| DonkeyCommon.BitHammingRange | plugins/qbic-orb/config.h:11-29 | BitHamming over the 64-byte ORB feature lies in 0..512 and is 0 iff the features are equal |
| DonkeyCommon.TrivialApply | src/donkey-common.h:238-241 | no hint fails the BOOST_VERIFY; otherwise the value of the first hint |
| DonkeyCommon.CountHintsIsLength | src/donkey-common.h:257-260 | the counting loop counts every hint |
| DonkeyCommon.CountingApply | src/donkey-common.h:255-262 | no hint fails the BOOST_VERIFY; otherwise the number of hints |
| DonkeyCommon.SingleFeatureObject.Enumerate | src/donkey-common.h:142-144 | exactly one pair, the feature under tag 0 |
| DonkeyCommon.SingleFeatureObject.Read | src/donkey-common.h:146-148 | the feature is read from the stream as ReadFeature does |
| DonkeyCommon.SingleFeatureObject.Write | src/donkey-common.h:150-152 | the stream grows by exactly the feature's bytes |
| DonkeyCommon.SingleFeatureObject.Swap | src/donkey-common.h:154-156 | the two features are exchanged |
| DonkeyCommon.PartBytes | src/donkey-common.h:209-215 | one part is [weight][data] feature, of PartSize bytes |
| DonkeyCommon.PartRoundTrip | src/donkey-common.h:192-215 | reading the bytes of a part gives back the part |
| DonkeyCommon.PartsFrom | src/donkey-common.h:191-199 | decoding n parts gives n well-formed parts, or nothing when the bytes run out |
| DonkeyCommon.PartsRoundTrip | src/donkey-common.h:191-216 | decoding the bytes of the parts followed by any bytes gives the parts back and leaves those bytes |
| DonkeyCommon.PartCount | src/donkey-common.h:206 | the stored count is `parts.size()` cut to 16 bits |
| DonkeyCommon.DecodeMultiPart | src/donkey-common.h:186-203 | a decoded object has at most MAX_FEATURES well-formed parts and object data of its size |
| DonkeyCommon.MultiPartRoundTrip | src/donkey-common.h:186-220 | read(write(o)) = o, with the following bytes left in the stream, when the object has at most MAX_FEATURES parts (and fewer than 65536) |
| DonkeyCommon.MultiPartTooMany | src/donkey-common.h:189 | a stored count above MAX_FEATURES fails the BOOST_VERIFY |
| DonkeyCommon.EnumerateParts | src/donkey-common.h:180-184 | one pair per part, tags 0..n−1, each with that part's feature, in part order |
| DonkeyCommon.Resize | src/donkey-common.h:190 | `resize(n)`: n elements, the old ones kept up to n, the rest value-initialised |
| DonkeyCommon.WritePart | src/donkey-common.h:209-215 | the stream grows by exactly the part's bytes |
| DonkeyCommon.ReadField | src/donkey-common.h:193-196 | a field is read from the next bytes; a short read fails the stream |
| DonkeyCommon.ReadPart | src/donkey-common.h:192-198 | with enough bytes the part is PartOf the next PartSize bytes; otherwise the stream fails |
| DonkeyCommon.MultiPartObject.Enumerate | src/donkey-common.h:180-184 | the object's parts as EnumerateParts lists them |
| DonkeyCommon.MultiPartObject.Write | src/donkey-common.h:205-220 | the stream grows by exactly MultiPartBytes: the u16 count, the parts, then the object data |
| DonkeyCommon.MultiPartObject.Read | src/donkey-common.h:186-203 | on a good stream: what DecodeMultiPart decodes is read, a count above MAX_FEATURES fails, and a short stream fails the stream; on a failed stream the uninitialised count decides the BOOST_VERIFY |
| DonkeyCommon.MultiPartObject.ReadParts | src/donkey-common.h:191-199 | the loop leaves the stream good only after reading exactly PartsFrom of the bytes, and good whenever they suffice |
| DonkeyCommon.MultiPartObject.Swap | src/donkey-common.h:222-225 | parts and data are exchanged |
| DonkeyCommon.ReadCount | src/donkey-common.h:187-188 | the count is the next two bytes little-endian; a short read fails the stream |
| Bits.XorComm | src/donkey-common.h:101 | exclusive or is symmetric |
| Bits.XorZero | src/donkey-common.h:101 | a ^ b is 0 iff a = b |
| Bits.PopcountBound | src/donkey-common.h:101 | a w-bit word has at most w one bits |
| Bits.PopcountZero | src/donkey-common.h:101 | popcount is 0 only for 0 |
| Bytes.LittleEndian | src/donkey-common.h:207 | the in-memory bytes of an n-byte word: exactly n of them |
| Bytes.WordOfBytes | src/donkey-common.h:188-207 | reading back the bytes of a word gives the word |
| Bytes.BytesOfWord | src/donkey-common.h:188-207 | every byte string is the image of the word it denotes |
| Bytes.OutStream.Write | src/donkey-common.h:40 | `ostream::write` appends the bytes |
| Bytes.InStream.Read | src/donkey-common.h:36 | `istream::read(n)`: a good stream with n bytes left extracts them; with fewer it extracts the rest and fails; a failed stream extracts nothing |
| DonkeyText.RecordFeatureOf | src/donkey-text.h:26-29 | a word record that starts with the bytes of f has feature f |
| DonkeyText.FlattenLength | src/donkey-text.h:44-56 | the memory image of n words is n·sizeof(Word) bytes |
| DonkeyText.RecordsFromSplits | src/donkey-text.h:44 | the records read are a prefix of the input: laid back to back and followed by the bytes left, they give the input again |
| DonkeyText.RecordsFromEnough | src/donkey-text.h:44 | n records are read iff the input holds at least n·sizeof(Word) bytes |
| DonkeyText.RecordsFromExtend | src/donkey-text.h:44 | bytes after the records do not change which records are read |
| DonkeyText.RecordsRoundTrip | src/donkey-text.h:44-56 | reading back the memory image of the words gives the words and leaves the following bytes |
| DonkeyText.TextCount | src/donkey-text.h:54 | the stored count is the number of words cut to 32 bits (the source's `parts.size()` read as `words.size()`) |
| DonkeyText.DecodeText | src/donkey-text.h:39-51 | a decoded object has well-formed words and object data of its size; `read` never aborts |
| DonkeyText.TextRoundTrip | src/donkey-text.h:39-60 | read(write(t)) = t, leaving the bytes after the object in the stream, for fewer than 2^32 words |
| DonkeyText.TextCountWraps | src/donkey-text.h:54-56 | with 2^32 words the stored count wraps to 0 and no word is written |
| DonkeyText.Fill | src/donkey-text.h:44 | a read into a buffer overwrites its front with the bytes extracted and keeps the rest of its old content |
| DonkeyText.EnumerateWords | src/donkey-text.h:33-37 | the pairs (i, feature of word i) for every word, in order |
| DonkeyText.TextObject.Enumerate | src/donkey-text.h:33-37 | the object's words as EnumerateWords lists them |
| DonkeyText.TextObject.Write | src/donkey-text.h:53-60 | the stream grows by exactly TextBytes: the u32 count, the words' image, then the object data unless it is tag_no_data |
| DonkeyText.TextObject.Read | src/donkey-text.h:39-51 | on a decodable stream the object becomes what DecodeText decodes; a short stream fails it; after the count the words' image is the old words resized and overwritten by the bytes extracted; without a count nothing changes |
| DonkeyText.TextObject.Swap | src/donkey-text.h:62-65 | words and data are exchanged and nothing else changes |
| DonkeyText.FillRecords | src/donkey-text.h:43-45 | on a full read the records are those at the front of the stream; on a short read the stream does not hold that many |
| DonkeyEmd.EmdAcceptsDistances | src/donkey-emd.h:19-24 | EMD accepts exactly the distance-like similarities (everything but Cosine) and is itself a distance (polarity −1) |
| DonkeyEmd.ExtraMassPenalty | src/donkey-emd.h:21-22 | the configured `donkey.emd.extra_mass_penalty`, 0 when it is not set |
| DonkeyEmd.Divide | src/donkey-emd.h:54 | `weight / sum` is the quotient for a non-zero sum; a zero sum gives an infinity of the weight's sign, or NaN for 0 / 0 |
| DonkeyEmd.TotalWeight | src/donkey-emd.h:49-52 | the first loop of normalize sums the part weights |
| DonkeyEmd.Normalize | src/donkey-emd.h:48-56 | `v[off + i]` becomes the share of part i, and no other slot of v changes |
| DonkeyEmd.PVector | src/donkey-emd.h:33-35 | P has N1 + N2 slots |
| DonkeyEmd.QVector | src/donkey-emd.h:34-36 | Q has N1 + N2 slots |
| DonkeyEmd.MassVectorsSides | src/donkey-emd.h:33-36 | P holds the query's shares on [0, N1) and zero after; Q is zero on [0, N1) and holds the candidate's shares after |
| DonkeyEmd.CostMatrix | src/donkey-emd.h:37 | C is N×N with N = N1 + N2 |
| DonkeyEmd.CostMatrixShape | src/donkey-emd.h:37-43 | C is symmetric, zero within one side, and C[i][N1 + j] is the distance between query part i and candidate part j |
| DonkeyEmd.ZeroTotalWeight | src/donkey-emd.h:49-55 | a side whose weights add up to zero gets no finite mass: NaN for a zero weight, an infinity otherwise |
| DonkeyEmd.SharesSumToOne | src/donkey-emd.h:53-55 | with a non-zero total the shares are finite, are the weights divided by the total, and add up to one |
| DonkeyEmd.SumScaled | src/donkey-emd.h:54 | dividing every weight by s divides their sum by s |
| DonkeyEmd.Apply | src/donkey-emd.h:28-45 | the result is the solver applied to P, Q, C and the penalty |
| DonkeyEmd.Costs | src/donkey-emd.h:37-43 | the nested loop leaves C equal to CostMatrix |
| DonkeyInvertedIndex.BinMatches | src/donkey-inverted-index.h:14-20 | one match per bin entry, in bin order, each carrying the entry's object and tag and the bin's size as distance |
| DonkeyInvertedIndex.InvertedIndex.constructor | src/donkey-inverted-index.h:6-7 | a new index has no bins |
| DonkeyInvertedIndex.InvertedIndex.Search | src/donkey-inverted-index.h:12-21 | `matches` keeps what it held and gains the query's bin matches after it |
| DonkeyInvertedIndex.InvertedIndex.Insert | src/donkey-inverted-index.h:23-25 | (object, tag) goes to the end of the bin of the exact feature value; every other bin is unchanged |
| DonkeyInvertedIndex.InvertedIndex.Clear | src/donkey-inverted-index.h:27-29 | every bin is gone |
| DonkeyInvertedIndex.InvertedIndex.Rebuild | src/donkey-inverted-index.h:31-33 | nothing changes |
| DonkeyInvertedIndex.InsertAppends | src/donkey-inverted-index.h:23-25 | an insert appends to its own bin and leaves every other bin as it was |
| DonkeyInvertedIndex.SearchAfterInsert | src/donkey-inverted-index.h:12-25 | after an insert, a query of that feature ends with the inserted pair, and every match of it carries the bin size, one more than before |
| DonkeyInvertedIndex.EmptyBinFindsNothing | src/donkey-inverted-index.h:13-29 | a feature never inserted (in particular any feature after clear) finds nothing |
| Sorting.SortBy | src/index-kgraph.cpp:149-150 | `std::sort` as a key sort: a permutation of its input |
| Sorting.SortBySorted | src/index-kgraph.cpp:149-150 | the sorted sequence is in key order |
| Sorting.SortByFrom | src/index-kgraph.cpp:149-150 | every element of the sorted sequence comes from the input |
| Sorting.InsertBySorted | src/index-kgraph.cpp:149-150 | inserting by key into a sorted sequence keeps it sorted |
| DonkeyKGraphIndex.BeforeIsKeyOrder | src/index-kgraph.cpp:8-15 | `operator<` on matches is descending by distance when the matcher's polarity is positive and ascending otherwise, and is asymmetric |
| DonkeyKGraphIndex.SortMatches | src/index-kgraph.cpp:149-150 | sorting matches permutes them |
| DonkeyKGraphIndex.SortMatchesInOrder | src/index-kgraph.cpp:149-150 | after sorting no match is preceded by one it comes before under `operator<` |
| DonkeyKGraphIndex.Truncate | src/index-kgraph.cpp:151-153 | at most K matches remain, a prefix of the sorted list, and a list of at most K is kept whole |
| DonkeyKGraphIndex.SearchParams | src/index-kgraph.cpp:111-118 | K is hint_K, or default_K when hint_K <= 0; R is hint_R, or default_R when hint_R is not normal, negated when the feature similarity's polarity is >= 0 |
| DonkeyKGraphIndex.Candidates | src/index-kgraph.cpp:141-148 | one match per hit, carrying the referenced entry's object and tag and the hit's distance |
| DonkeyKGraphIndex.Shift | src/index-kgraph.cpp:136-138 | every scan hit's id moved up by the watermark, its distance kept |
| DonkeyKGraphIndex.RebuildSettles | src/index-kgraph.cpp:173-192 | a second rebuild over the same entries changes nothing; a non-linear rebuild moves the watermark to the end, and with at least min_index_size entries every entry is in the new graph |
| DonkeyKGraphIndex.RebuildSmallStrands | src/index-kgraph.cpp:178-188 | a rebuild over fewer than min_index_size entries, some of them new, drops the graph but moves the watermark past them, so every later search fails its BOOST_VERIFY |
| DonkeyKGraphIndex.RebuildFiveEntries | src/index-kgraph.cpp:178-188 | five entries and the default minimum of 10000: the watermark is 5 with no graph, and search cannot run |
| DonkeyKGraphIndex.RebuildFixedCovers | src/index-kgraph.cpp:173-192 | the corrected rebuild keeps every entry reachable by search, agrees with rebuild as written whenever a graph is built, and keeps the linear check |
| DonkeyKGraphIndex.ClearStrands | src/index-kgraph.cpp:165-171 | clear on an index with a watermark leaves it above the now-empty entries, so the next search fails its BOOST_VERIFY |
| DonkeyKGraphIndex.ClearFixedCovers | src/index-kgraph.cpp:165-171 | after the corrected clear, search reaches every entry inserted later |
| DonkeyKGraphIndex.InsertCovers | src/index-kgraph.cpp:157-163 | an insert keeps every entry reachable: the new one lies in the scanned tail |
| DonkeyKGraphIndex.KGraphIndex.constructor | src/index-kgraph.cpp:71-76 | min_index_size from `donkey.kgraph.min` (default 10000), watermark 0, no entries and no graph |
| DonkeyKGraphIndex.KGraphIndex.Search | src/index-kgraph.cpp:108-155 | no graph under a non-zero watermark, or a watermark past the entries, fails a BOOST_VERIFY; otherwise at most 2K hits (graph hits, then tail hits shifted by the watermark), resolved to their entries, sorted by `operator<` and cut to K |
| DonkeyKGraphIndex.KGraphIndex.GatherHits | src/index-kgraph.cpp:124-139 | the graph's hits followed by the tail's hits shifted past the watermark, all below the number of entries |
| DonkeyKGraphIndex.KGraphIndex.Resolve | src/index-kgraph.cpp:141-148 | the matches are Candidates of the hits |
| DonkeyKGraphIndex.KGraphIndex.Insert | src/index-kgraph.cpp:157-163 | exactly one entry appended; the watermark and the graph untouched |
| DonkeyKGraphIndex.KGraphIndex.Clear | src/index-kgraph.cpp:165-171 | no entries and no graph, and the watermark kept |
| DonkeyKGraphIndex.KGraphIndex.Rebuild | src/index-kgraph.cpp:173-192 | the new watermark and graph are RebuildOf's: a linear index aborts unless nothing was indexed and changes nothing; no new entries changes nothing; otherwise the watermark moves to the end and a graph is built iff there are at least min_index_size entries |
| DonkeyKGraphIndex.KGraphIndex.Recover | src/index-kgraph.cpp:194-220 | a successful load with a readable `.meta` installs the loaded graph with the watermark from `.meta`; any failure rebuilds |
| DonkeyKGraphIndex.KGraphIndex.Snapshot | src/index-kgraph.cpp:222-229 | writes iff there is a graph: the graph and the watermark followed by a newline |
| DonkeyKGraphIndex.ShiftFrom | src/index-kgraph.cpp:136-138 | the hits before L0 unchanged, those from L0 on shifted by the watermark |
| DonkeyKGraphIndex.SearchAnswer | src/index-kgraph.cpp:141-153 | the answer holds at most K matches, best first, taken without repetition from the candidates, each carrying a real entry's object and tag |
| DonkeyLsh.CapacitiesFit | src/lsh.h:111-124 | when nothing wraps: max_records and max_blocks follow the sizing formulas, and the initial blocks plus the records fit in the allocated bytes, as the BOOST_VERIFY demands |
| DonkeyLsh.DefaultCapacities | src/lsh.h:114-120 | 8 tables of 2^24 buckets over 16 GiB with 16-byte records: 2^27 initial blocks take the whole budget, so there is room for no record at all |
| DonkeyLsh.SizingDecides | src/lsh.h:111-124 | for sized arguments the BOOST_VERIFY passes exactly when the initial blocks fit in the allocation; otherwise the sizing aborts |
| DonkeyLsh.SizingShort | src/lsh.h:114-124 | an allocation below the initial blocks wraps `memory.size() - overhead` to nearly 2^64, and the used bytes then exceed the allocation |
| DonkeyLsh.ShortBudgetAborts | src/lsh.h:114-124 | 8 tables of 2^24 buckets with a 1 GiB allocation abort: the initial blocks alone need 16 GiB |
| DonkeyLsh.NoTablesCapacities | src/lsh.h:114-120 | with no tables there are no blocks, and the whole allocation is shared out as records |
| DonkeyLsh.NewIndex | src/lsh.h:105-141 | the whole constructor: an abort exactly when the initial blocks do not fit, otherwise a fresh empty index with the sizing formulas' capacities |
| DonkeyLsh.BucketAppend | src/lsh.h:78-94 | addToBucket when the last block has room: the record goes to slot `tail` of the last block, and the chain still holds the bucket's records in order |
| DonkeyLsh.BucketExtend | src/lsh.h:78-94 | addToBucket when the last block is full: the next unused block is linked in as the new, empty last block; the chain stays well formed |
| DonkeyLsh.HashedTo | src/lsh.h:143-153 | the record numbers a bucket holds once the records are appended are all below the record count |
| DonkeyLsh.HashedToMembers | src/lsh.h:143-153 | a bucket holds record x exactly when x was appended and the table's hash sends it to that bucket |
| DonkeyLsh.HashedToAscending | src/lsh.h:143-153 | a bucket's record numbers are strictly ascending, so each record appears in it once |
| DonkeyLsh.HashedToNext | src/lsh.h:146-153 | appending a record adds its number at the end of exactly the bucket it hashes to, in each table |
| DonkeyLsh.Account | src/lsh.h:79-93 | the slots filled in a table always add up to the records appended: a full last block is replaced by a new block holding one record |
| DonkeyLsh.PlaceAllRoom | src/lsh.h:113-120 | during append, the block pool always has a free block when a bucket needs a new one: max_blocks is enough for max_records records |
| DonkeyLsh.HitsMembers | src/lsh.h:171-187 | a scanned bucket reports a pair exactly when one of its records passes the threshold, with that record's key and distance |
| DonkeyLsh.ProbeMembers | src/lsh.h:160-192 | search reports a pair exactly when some record shares the query's bucket in one of the tables and passes the threshold (`>=` for positive polarity, `<=` otherwise; NaN never passes) |
| DonkeyLsh.ScanMembers | src/lsh.h:194-201 | brutal reports a key exactly when some record's distance is at least the threshold, whatever the polarity |
| DonkeyLsh.Index.constructor | src/lsh.h:105-141 | for arguments whose BOOST_VERIFY passes: every bucket starts with an empty block of its own, nothing is stored, and the capacities are those of the sizing formulas |
| DonkeyLsh.Index.SetUp | src/lsh.h:131-140 | the set-up loop gives each bucket one fresh block, numbered in table order, with next = -1 |
| DonkeyLsh.Index.Append | src/lsh.h:143-158 | a full index throws bad_alloc and changes nothing; otherwise the record is appended and every table's bucket for it gains its number, keeping the index invariant |
| DonkeyLsh.Index.AddToBucket | src/lsh.h:78-94 | the call fails exactly when the last block is full and the pool is used up; otherwise the layout is that of placing the record |
| DonkeyLsh.Index.Capacity | src/lsh.h:97-99 | a valid index never holds more records than capacity() |
| DonkeyLsh.Index.Size | src/lsh.h:101-103 | size() is the number of records appended |
| DonkeyLsh.Index.Search | src/lsh.h:160-192 | the keys gained are exactly Probe: table by table, the query's bucket's passing records in bucket order, with their distances |
| DonkeyLsh.Index.ScanBucket | src/lsh.h:165-190 | walking the chain (31 slots per block, `tail` in the last one) visits exactly the bucket's records, in order |
| DonkeyLsh.Index.Brutal | src/lsh.h:194-201 | the keys gained are exactly Scan: the records in append order whose distance is at least the threshold |
| DonkeyLshIndex.DefaultsHoldNothing | src/index-lsh.cpp:51-55 | the defaults donkey.lsh.tables = 8, bits = 24 and allocate = 16 GiB are accepted by the arena, but leave room for no entry at all |
| DonkeyLshIndex.RepeatMembers | src/index-lsh.cpp:72-87 | an element is in n repetitions of a list exactly when n > 0 and it is in the list |
| DonkeyLshIndex.PassingMembers | src/lsh.h:171-187 | a pair is emitted by a scan of all entries exactly when some entry passes the threshold, with its key and distance |
| DonkeyLshIndex.ZeroHashedTo | src/index-lsh.cpp:27-35 | the stub hash (0 for every table) puts every entry in bucket 0 of every table, in insertion order |
| DonkeyLshIndex.HitsUpto | src/lsh.h:171-187 | scanning slots 0 .. m - 1 is the scan of the first m entries |
| DonkeyLshIndex.StubBucket | src/index-lsh.cpp:27-35 | with the stub hash, the bucket a query probes in any table yields the scan of all entries |
| DonkeyLshIndex.StubProbe | src/index-lsh.cpp:27-35 | with the stub hash, search reports every passing entry once per table: the full scan repeated num_tables times |
| DonkeyLshIndex.ToMatches | src/index-lsh.cpp:78-85 | the copy keeps the length, and each match carries its pair's object, tag and distance |
| DonkeyLshIndex.AnswerMembers | src/index-lsh.cpp:72-87 | a match is answered exactly when there is at least one table and an entry with its object and tag passes the threshold at its distance |
| DonkeyLshIndex.AnswerCount | src/index-lsh.cpp:72-87 | each passing match is answered exactly num_tables times as often as it passes |
| DonkeyLshIndex.ToMatchesAppend | src/index-lsh.cpp:78-85 | copying a concatenation is the concatenation of the copies |
| DonkeyLshIndex.LSHIndex.constructor | src/index-lsh.cpp:62 | the member initialisers: the configured settings, indexed_size 0 and no arena yet |
| DonkeyLshIndex.LSHIndex.CreateIndex | src/index-lsh.cpp:51-59 | create_index makes an empty arena of the configured tables, bits and allocation exactly when its initial blocks fit in the allocation, and aborts otherwise |
| DonkeyLshIndex.Create | src/index-lsh.cpp:62-64 | LSHIndex(config): an abort exactly when the configured arena fails its sizing; otherwise a fresh index with an empty arena of the configured settings and indexed_size 0 |
| DonkeyLshIndex.LSHIndex.Search | src/index-lsh.cpp:72-87 | the matches are exactly the arena's passing entries for hint_R, once per table; with no arena, none |
| DonkeyLshIndex.LSHIndex.Insert | src/index-lsh.cpp:89-96 | with no arena the call aborts; a full arena throws bad_alloc and changes nothing; otherwise the entry is appended and indexed_size grows by one |
| DonkeyLshIndex.LSHIndex.ClearAsWritten | src/index-lsh.cpp:98-104 | clear releases the arena and leaves none, with indexed_size 0 |
| DonkeyLshIndex.LSHIndex.Clear | src/index-lsh.cpp:98-104 | corrected clear: indexed_size 0 and a fresh empty arena of the same settings, or an abort exactly when those settings fail the sizing |
| DonkeyLshIndex.StubSearch | src/index-lsh.cpp:76 | the arena search with the stub hash yields the scan of all entries, num_tables times |
| DonkeyLshIndex.CopyMatches | src/index-lsh.cpp:78-85 | the copy loop produces ToMatches of the pairs |
| DonkeyLshIndex.ClearThenInsertAsWritten | src/index-lsh.cpp:94 | as written, an insert after clear always aborts on the null arena |
| DonkeyLshIndex.ClearThenInsert | src/index-lsh.cpp:89-104 | with the corrected clear, an insert after clear leaves that entry as the only one, or reports OutOfMemory when the arena has no room, or the clear aborts when the settings fail the sizing |
| DonkeyLshIndex.DefaultIndexFull | src/index-lsh.cpp:51-55 | an index of the default configuration rejects its first insert with OutOfMemory |
| DonkeyKGraphLite.SortNats | src/kgraph_lite.cpp:37 | `sort(addr, addr + size)` gives a permutation of the drawn values |
| DonkeyKGraphLite.SortNatsBelow | src/kgraph_lite.cpp:37 | sorting keeps every value below its bound |
| DonkeyKGraphLite.RotateInjective | src/kgraph_lite.cpp:43-46 | adding an offset below N modulo N maps distinct values below N to distinct values |
| DonkeyKGraphLite.RotatePair | src/kgraph_lite.cpp:44-46 | with the 32-bit wrap of `addr[i] + off` written out, distinct values stay distinct when N <= 2^31 |
| DonkeyKGraphLite.GenRandom | src/kgraph_lite.cpp:25-47 | size values below N; 0 .. size - 1 when N == size; pairwise distinct when N <= 2^31, where the unsigned sum cannot wrap; the rest of the buffer untouched |
| DonkeyKGraphLite.Draw | src/kgraph_lite.cpp:34-36 | addr[i] is the i-th generator output modulo N - size |
| DonkeyKGraphLite.SortPrefix | src/kgraph_lite.cpp:37 | the first size slots become the sorted drawn values, the rest unchanged |
| DonkeyKGraphLite.FixUp | src/kgraph_lite.cpp:38-42 | the values become strictly increasing, and the i-th stays below N - size + i, so below N |
| DonkeyKGraphLite.Rotate | src/kgraph_lite.cpp:43-46 | addr[i] becomes (addr[i] + off) mod 2^32 mod N; distinct when N <= 2^31 |
| DonkeyKGraphLite.InsertPos | src/kgraph_lite.cpp:90-97 | the insert position follows every entry at distance <= d and precedes every entry farther than d |
| DonkeyKGraphLite.KnnInsert | src/kgraph_lite.cpp:75-114 | K + 1 and the list unchanged for a duplicate found by the equal-distance scan; otherwise the insert position and the list with nn placed there |
| DonkeyKGraphLite.DupInHasId | src/kgraph_lite.cpp:98-105 | the duplicate scan reports only an entry carrying nn's id |
| DonkeyKGraphLite.DupInRun | src/kgraph_lite.cpp:98-105 | on a sorted list the scan finds a duplicate exactly when an entry at distance equal to nn's has nn's id |
| DonkeyKGraphLite.KnnInsertRejects | src/kgraph_lite.cpp:79 | on a sorted list the candidate is rejected exactly when an entry at the same distance has its id (equal ids at other distances are not caught) |
| DonkeyKGraphLite.KnnInsertSorted | src/kgraph_lite.cpp:80-83 | an accepted candidate keeps the list sorted by distance, after all entries at distance <= its own and before the farther ones |
| DonkeyKGraphLite.KnnInsertNew | src/kgraph_lite.cpp:80-83 | a candidate whose id is not in the list is always inserted |
| DonkeyKGraphLite.KnnInsertEmpty | src/kgraph_lite.cpp:85-87 | K == 0: addr[0] becomes nn and 0 is returned |
| DonkeyKGraphLite.UpdateKnnListHelper | src/kgraph_lite.cpp:88-114 | the return value and the array are those of KnnInsert on addr[0..K); a rejected candidate changes nothing |
| DonkeyKGraphLite.FindSlot | src/kgraph_lite.cpp:90-97 | the first loop finds InsertPos |
| DonkeyKGraphLite.HasDuplicate | src/kgraph_lite.cpp:98-105 | the second loop reports exactly the duplicate scan |
| DonkeyKGraphLite.ShiftUp | src/kgraph_lite.cpp:107-111 | addr[i..K) moves up one slot, the rest unchanged |
| DonkeyKGraphLite.IdsFrom | src/kgraph_lite.cpp:176-189 | a decoded neighbour list has exactly K ids |
| DonkeyKGraphLite.RecordsFrom | src/kgraph_lite.cpp:169-190 | N decoded records give N values of M and N neighbour lists |
| DonkeyKGraphLite.Le32 | src/kgraph_lite.cpp:172-173 | the four little-endian bytes of a u32 read back as its value |
| DonkeyKGraphLite.IdsRoundTrip | src/kgraph_lite.cpp:176-189 | the neighbour ids written with their padding are decoded back, and the remaining bytes are left |
| DonkeyKGraphLite.RecordRoundTrip | src/kgraph_lite.cpp:172-189 | one record's M, K and neighbour list are decoded back from their bytes |
| DonkeyKGraphLite.RecordsRoundTrip | src/kgraph_lite.cpp:169-190 | N records are decoded back from their bytes |
| DonkeyKGraphLite.LoadRoundTrip | src/kgraph_lite.cpp:144-191 | load(save(g)) == g whatever the magic bytes, for both record layouts the capability word selects (ids only, or whole Neighbor structs) |
| DonkeyKGraphLite.LoadIgnoresMagic | src/kgraph_lite.cpp:161-163 | the magic bytes do not affect what is loaded: the runtime_error for a mismatch is constructed and never thrown |
| DonkeyKGraphLite.ReadIds | src/kgraph_lite.cpp:176-189 | the stream stays good exactly when K entries decode, and then the ids are those entries' ids |
| DonkeyKGraphLite.ReadRecord | src/kgraph_lite.cpp:170-189 | the stream stays good exactly when a whole record decodes, and then M and the ids are that record's |
| DonkeyKGraphLite.UncheckedMark | src/kgraph_lite.cpp:322-323 | flagging an unflagged point leaves one fewer unchecked point |
| DonkeyKGraphLite.WorkUpdate | src/kgraph_lite.cpp:303-338 | replacing one list entry changes the remaining work by that entry's pending work |
| DonkeyKGraphLite.InsertEvaluated | src/kgraph_lite.cpp:325-327 | an accepted candidate with its oracle distance keeps every entry a flagged point with its distance |
| DonkeyKGraphLite.InsertEntriesOk | src/kgraph_lite.cpp:325-327 | an accepted valid candidate keeps every entry naming a node with valid m and M |
| DonkeyKGraphLite.Admit | src/kgraph_lite.cpp:327-336 | the list grows by one while below capacity and keeps its length otherwise; k never moves forward; nn lands at its insert position with M = actual_M |
| DonkeyKGraphLite.Admitted | src/kgraph_lite.cpp:319-337 | admitting a fresh, scored candidate keeps the list sorted, its entries valid and scored, within capacity, and every entry before k expanded |
| DonkeyKGraphLite.LogAppend | src/kgraph_lite.cpp:322-325 | computing one more distance flags and logs the point, and a log of distinct points stays distinct |
| DonkeyKGraphLite.DistinctAppend | src/kgraph_lite.cpp:278-283 | appending distinct unflagged start points to a distinct log keeps it distinct |
| DonkeyKGraphLite.OfferNearest | src/kgraph_lite.cpp:327-330 | offering a candidate to a sorted list keeps it the nearest cap of every point offered, the candidate included |
| DonkeyKGraphLite.OfferGrows | src/kgraph_lite.cpp:330 | below capacity the list keeps every point offered to it |
| DonkeyKGraphLite.OfferFull | src/kgraph_lite.cpp:327-330 | in a full list the entry that falls off, and every point already beyond the list, stays beyond it |
| DonkeyKGraphLite.OfferDistinct | src/kgraph_lite.cpp:327-328 | offering a point not in a list of distinct points keeps them distinct |
| DonkeyKGraphLite.AdmitKeys | src/kgraph_lite.cpp:331-336 | setting the search width of the admitted entry changes no point and no distance |
| DonkeyKGraphLite.CutNearest | src/kgraph_lite.cpp:339 | cutting the trial list to K keeps the nearest K |
| DonkeyKGraphLite.MergeCover | src/kgraph_lite.cpp:347-352 | results holding the nearest K of a trial's distinct, full list hold the nearest K of that trial's points |
| DonkeyKGraphLite.SomeBeyond | src/kgraph_lite.cpp:347-352 | after merging a full trial list, one of its entries has no place in the results |
| DonkeyKGraphLite.PermDistinct | src/kgraph_lite.cpp:300 | sorting the start list keeps its points distinct |
| DonkeyKGraphLite.Merge | src/kgraph_lite.cpp:340-353 | merging a trial's list keeps the results sorted, at most K long and scored; they are the nearest K of what they held and the list's entries, and, when the list held distinct points and was the nearest K of its trial, the nearest K of that trial's points too |
| DonkeyKGraphLite.EpsilonCut | src/kgraph_lite.cpp:357-364 | the results are cut just before the first entry farther than epsilon: a prefix within epsilon |
| DonkeyKGraphLite.EpsilonNearest | src/kgraph_lite.cpp:355-364 | after the epsilon cut every point offered is reported, farther than epsilon, or no nearer than the K-th reported point |
| DonkeyKGraphLite.KGraphLite.constructor | src/kgraph_lite.cpp:139-140 | a new graph is empty |
| DonkeyKGraphLite.KGraphLite.ActualM | src/kgraph_lite.cpp:129-131 | min(max(M[i], pM), the neighbour count): never more than the neighbours, and at least M[i] and pM unless capped |
| DonkeyKGraphLite.KGraphLite.Load | src/kgraph_lite.cpp:144-191 | a failed open reports OpenFailed; otherwise the result is DecodeGraph of the file bytes (version 2 only; a short file reports Truncated), and a loaded graph is stored |
| DonkeyKGraphLite.KGraphLite.ReadRecords | src/kgraph_lite.cpp:169-190 | the record loop yields RecordsFrom of the remaining bytes, stored in M and graph |
| DonkeyKGraphLite.KGraphLite.Search | src/kgraph_lite.cpp:247-388 | each error case of search (dataset larger than index; init > 0 with T > 1; no ids; L >= K; T == 0 aborts at pop_back) and the brute-force path when P >= N; otherwise at most K results, sorted by distance, within epsilon, each a scored node with its oracle distance, and every scored point is reported, farther than epsilon or no nearer than the K-th result (one trial, or N <= 2^31); no point is scored twice given distinct start points |
| DonkeyKGraphLite.KGraphLite.Trials | src/kgraph_lite.cpp:273-354 | after the trials the results are sorted, at most K long and scored, the flags mark exactly the scored points, and the results are the nearest K of all scored points (one trial, or N <= 2^31 so that random starts are distinct) |
| DonkeyKGraphLite.KGraphLite.Trial | src/kgraph_lite.cpp:274-339 | one trial leaves a valid list of at most K entries that are the nearest K of the points it scored, distinct given distinct starts; flags only grow, and the log stays distinct |
| DonkeyKGraphLite.KGraphLite.SortedList | src/kgraph_lite.cpp:300 | the sorted start list is sorted by distance and keeps the entries' facts |
| DonkeyKGraphLite.KGraphLite.StartsListed | src/kgraph_lite.cpp:292-300 | every start point is in the sorted start list, and distinct starts give distinct entries |
| DonkeyKGraphLite.KGraphLite.ScoreStarts | src/kgraph_lite.cpp:292-299 | each start point is flagged, scored with its oracle distance and given m = 0 and M = actual_M |
| DonkeyKGraphLite.KGraphLite.RandomStarts | src/kgraph_lite.cpp:275-284 | at most P start points, each a node not flagged by an earlier trial, distinct when N <= 2^31 |
| DonkeyKGraphLite.KGraphLite.Walk | src/kgraph_lite.cpp:302-338 | the walk ends with every list entry expanded, the list valid, within capacity, and the nearest cap of the points offered before it and all the points it scored |
| DonkeyKGraphLite.KGraphLite.Expand | src/kgraph_lite.cpp:309-337 | checking neighbours [beginM, endM) scores only neighbours of the node, keeps the list valid and the nearest cap of the points offered to it, k never moves forward, and either a point was newly flagged or nothing changed |
| DonkeyKGraphLite.KGraphLite.Visit | src/kgraph_lite.cpp:320-336 | one unchecked neighbour is flagged and logged, never a duplicate (the BOOST_VERIFY holds), and admitted with M = actual_M; the list stays the nearest cap of the points offered, the new one included |
| WebRfc.HexValue | 3rd/Simple-Web-Extra/server_extra_rfc.hpp:17-38 | the dec_to_hex table: -1 for a non-digit, else a value below 16 |
| WebRfc.HexDigitValue | 3rd/Simple-Web-Extra/server_extra_rfc.hpp:15-38 | hex_table and dec_to_hex are inverse on 0 .. 15 |
| WebRfc.EscapeConcat | 3rd/Simple-Web-Extra/server_extra_rfc.hpp:50-63 | escaping works byte by byte: the escape of a concatenation is the concatenation of the escapes |
| WebRfc.EscapeShape | 3rd/Simple-Web-Extra/server_extra_rfc.hpp:50-63 | each escaped byte takes three characters and the others one; the result holds only unreserved characters and '%' |
| WebRfc.Unescape | 3rd/Simple-Web-Extra/server_extra_rfc.hpp:67-97 | unescaping never lengthens the text |
| WebRfc.UnescapeEscape | 3rd/Simple-Web-Extra/server_extra_rfc.hpp:40-97 | query_unescape(query_escape(s)) == s for every byte string |
| WebRfc.UnescapeShortTail | 3rd/Simple-Web-Extra/server_extra_rfc.hpp:92-94 | the last two characters are never decoded: a text shorter than 3 comes back unchanged |
| WebRfc.QueryEscape | 3rd/Simple-Web-Extra/server_extra_rfc.hpp:40-65 | the buffer loop produces Escape(s) |
| WebRfc.PutEscaped | 3rd/Simple-Web-Extra/server_extra_rfc.hpp:51-62 | one byte writes its one or three characters after those already written |
| WebRfc.QueryUnescape | 3rd/Simple-Web-Extra/server_extra_rfc.hpp:67-97 | the two loops produce Unescape(s) |
| WebRfc.DecodeAt | 3rd/Simple-Web-Extra/server_extra_rfc.hpp:79-89 | at a position before the last two, a valid `%XY` yields one byte and advances 3, anything else is copied and advances 1 |
| WebRfc.InsertFirst | 3rd/Simple-Web-Extra/server_extra_rfc.hpp:121 | unordered_map::insert: a key already present keeps its first value |
| WebRfc.ScanAt | 3rd/Simple-Web-Extra/server_extra_rfc.hpp:111-114 | the character scan stops at the first occurrence of the character, or at the end |
| WebRfc.NewQueryDict | 3rd/Simple-Web-Extra/server_extra_rfc.hpp:105-124 | the constructor yields ParseQuery: no '?' gives an empty dictionary; a segment without a non-empty key or value throws |
| WebRfc.ReadPair | 3rd/Simple-Web-Extra/server_extra_rfc.hpp:111-122 | one loop round: either it finishes the parse, or it moves past the segment with the pair inserted |
| WebRfc.ParsePairsKeeps | 3rd/Simple-Web-Extra/server_extra_rfc.hpp:110-123 | the only error is the RFC exception, and keys already present keep their values |
| WebRfc.QueryAfterMark | 3rd/Simple-Web-Extra/server_extra_rfc.hpp:106-108 | a query starting with '?' is parsed from the next character |
| WebRfc.FirstValueKept | 3rd/Simple-Web-Extra/server_extra_rfc.hpp:121 | `?k=v&k=w` gives k the first value, v |
| WebRfc.Get | 3rd/Simple-Web-Extra/server_extra_rfc.hpp:126-130 | get(key, def) with a string: the stored value, or def when the key is absent |
| WebRfc.GetInt | 3rd/Simple-Web-Extra/server_extra_rfc.hpp:126-130 | get(key, def) with an int: def when absent, otherwise lexical_cast of the stored text (which can fail) |
| WebRfc.GetIntStored | 3rd/Simple-Web-Extra/server_extra_rfc.hpp:126-130 | a 32-bit int stored as decimal text is read back |
| WebRfc.EncodeDict | 3rd/Simple-Web-Extra/server_extra_rfc.hpp:132-141 | encode(amps) writes each pair escaped as key=value in the iteration order, joined by '&', with a leading '&' when amps is set |
| WebRfc.EscapeSeparators | 3rd/Simple-Web-Extra/server_extra_rfc.hpp:50-63 | an escaped text never holds '&' or '=' |
| WebRfc.ParseEncode | 3rd/Simple-Web-Extra/server_extra_rfc.hpp:105-141 | parsing "?" + encode() gives back the dictionary, for any iteration order, when keys and values are non-empty |
| WebRfc.SpaceCrlf | 3rd/Simple-Web-Extra/server_extra_rfc.hpp:158-164 | spaceCRLF returns a position past the next CRLF, or throws when there is none |
| WebRfc.BoundaryOf | 3rd/Simple-Web-Extra/server_extra_rfc.hpp:177-210 | an accepted content type starts with "multipart/" and has a "boundary=", and the delimiter is "--" plus a non-empty boundary |
| WebRfc.FindAtStart | 3rd/Simple-Web-Extra/server_extra_rfc.hpp:177-178 | `find(pat) == 0` holds exactly when pat is a prefix |
| WebRfc.Headers | 3rd/Simple-Web-Extra/server_extra_rfc.hpp:224-245 | the header loop ends after an empty line, at a position within the body |
| WebRfc.DispositionName | 3rd/Simple-Web-Extra/server_extra_rfc.hpp:233-244 | a `Content-Disposition: form-data; name="n"` line names its part n |
| WebRfc.PartBody | 3rd/Simple-Web-Extra/server_extra_rfc.hpp:248 | the part body runs from the end of the headers to the delimiter; when the headers run past the delimiter the wrapped length takes the rest of the body |
| WebRfc.PartRound | 3rd/Simple-Web-Extra/server_extra_rfc.hpp:217-255 | a round of the part loop that goes on always moves forward |
| WebRfc.ReadBoundary | 3rd/Simple-Web-Extra/server_extra_rfc.hpp:177-210 | the boundary code, with its loop removing trailing white space, yields BoundaryOf |
| WebRfc.ReadHeaders | 3rd/Simple-Web-Extra/server_extra_rfc.hpp:224-245 | the header loop yields Headers |
| WebRfc.ReadRound | 3rd/Simple-Web-Extra/server_extra_rfc.hpp:219-254 | one round of the part loop yields PartRound |
| WebRfc.NewMultiPart | 3rd/Simple-Web-Extra/server_extra_rfc.hpp:174-256 | the constructor yields ParseMultiPart: each error case throws, otherwise the parts in order |
| WebRfc.PartsLoop | 3rd/Simple-Web-Extra/server_extra_rfc.hpp:217-255 | the part loop yields PartsFrom |
| WebRfc.FormBoundaryOf | 3rd/Simple-Web-Extra/server_extra_rfc.hpp:177-210 | `multipart/form-data; boundary=b` gives the delimiter "--b" |
| WebRfc.MultiPartRoundTrip | 3rd/Simple-Web-Extra/server_extra_rfc.hpp:174-256 | a form body laid out with boundary b (parts whose bodies hold no CR and no delimiter) parses back into exactly its parts, names and bodies |
| WebExtra.FreshResponse | 3rd/Simple-Web-Extra/server_extra_x.hpp:67-68 | a new response is 200 "OK" with no mime type, headers or body |
| WebExtra.Load | 3rd/Simple-Web-Extra/server_extra_x.hpp:32-45 | load fails exactly when the path's query string is malformed (the RFC exception); otherwise the fields are taken over and GET is the parsed query |
| WebExtra.DumpLayout | 3rd/Simple-Web-Extra/server_extra_x.hpp:55-66 | the message starts with the status line and ends with the body, and its Content-Length reads back as the body's length |
| WebExtra.DumpContentType | 3rd/Simple-Web-Extra/server_extra_x.hpp:57-59 | a Content-Type line is written exactly when the mime type is set |
| WebExtra.Dump | 3rd/Simple-Web-Extra/server_extra_x.hpp:55-66 | dump writes DumpText: status line, optional Content-Type, Content-Length, each header, blank line, body |
| WebExtra.WriteHeaders | 3rd/Simple-Web-Extra/server_extra_x.hpp:61-63 | the header loop writes `name: value` lines in order |
| WebExtra.RunOne | 3rd/Simple-Web-Extra/server_extra_x.hpp:85-87 | running one plugin is calling it |
| WebExtra.RunAppend | 3rd/Simple-Web-Extra/server_extra_x.hpp:84-92 | the plugins run in list order and an exception skips all that follow |
| WebExtra.RunLoop | 3rd/Simple-Web-Extra/server_extra_x.hpp:85-87 | the plugin loop yields Run, stopping at the first exception |
| WebExtra.HandledStages | 3rd/Simple-Web-Extra/server_extra_x.hpp:83-101 | before-plugins, handler and after-plugins run in that order; an exception anywhere gives status 404 with the exception's message as the body, the reason left as it was |
| WebExtra.HandlerThrowSkipsAfter | 3rd/Simple-Web-Extra/server_extra_x.hpp:88-92 | a handler that throws leaves the after-plugins out |
| WebExtra.NotFoundOk | 3rd/Simple-Web-Extra/server_extra_x.hpp:93-96 | an exception on a fresh response gives the status line "404 OK", body the message |
| WebExtra.JsonParseError | 3rd/Simple-Web-Extra/server_extra_x.hpp:128-134 | a body that does not parse never reaches the handler: 404, body "{}", and an Error header "json error: " plus the parser's message |
| WebExtra.JsonFilled | 3rd/Simple-Web-Extra/server_extra_x.hpp:127-140 | an empty body hands the handler null; its output's JSON text becomes the body, typed application/javascript, before the after-plugins run |
| WebExtra.JsonBeforeThrows | 3rd/Simple-Web-Extra/server_extra_x.hpp:122-153 | an exception in a before-plugin skips the handler and after-plugins: 404, "{}" and an Error header with the message |
| WebExtra.Multiplexer.constructor | 3rd/Simple-Web-Extra/server_extra_x.hpp:179-183 | a new multiplexer has no plugins |
| WebExtra.Multiplexer.UseBefore | 3rd/Simple-Web-Extra/server_extra_x.hpp:185-187 | use_before appends the plugin to the before list only |
| WebExtra.Multiplexer.UseAfter | 3rd/Simple-Web-Extra/server_extra_x.hpp:189-191 | use_after appends the plugin to the after list only |
| WebExtra.Multiplexer.HandleRequest | 3rd/Simple-Web-Extra/server_extra_x.hpp:83-101 | handle_request answers Handled of the current plugin lists |
| WebExtra.Multiplexer.HandleJsonRequest | 3rd/Simple-Web-Extra/server_extra_x.hpp:122-153 | handle_json_request answers JsonHandled of the current plugin lists |
| WebExtra.Multiplexer.Serve | 3rd/Simple-Web-Extra/server_extra_x.hpp:112-118 | the resource callback: a malformed query string throws before any handler runs; otherwise the dump of the handled fresh response |
| MathOp.RootIsLargest | plugins/qbic-nise/mathop.h:347-348 | the root is the largest y with y*y <= x |
| MathOp.RootUnique | plugins/qbic-nise/mathop.h:347-348 | x has only one integer square root |
| MathOp.FastSqrt | plugins/qbic-nise/mathop.h:402-420 | for an n-bit word (n even), the bit-by-bit loop returns the integer square root of x, which fits in n/2 bits; the shifts are taken modulo 2^n as in the source and never wrap |
| MathOp.SqrtBit | plugins/qbic-nise/mathop.h:412-417 | one step decides the next bit of the root and keeps y*y*2^twok + x == x0 < (y+1)^2*2^twok |
| MathOp.StepKeeps | plugins/qbic-nise/mathop.h:412-417 | within one step, `y <<= 1` and `(2*y + 1) << twok` do not wrap, and either outcome of the test keeps the root invariant |
| MathOp.SqrtStep | plugins/qbic-nise/mathop.h:357-368 | the bit is set exactly when that keeps the partial root's square within x, the algorithm's derivation |
| MathOp.FastSqrtUi32 | plugins/qbic-nise/mathop.h:423 | vl_fast_sqrt_ui32 returns the integer square root, below 2^16 |
| MathOp.FastSqrtUi16 | plugins/qbic-nise/mathop.h:424 | vl_fast_sqrt_ui16 returns the integer square root, below 2^8 |
| MathOp.FastSqrtUi8 | plugins/qbic-nise/mathop.h:425 | vl_fast_sqrt_ui8 returns the integer square root, below 2^4 |
| NiseExtractor.WithBit | plugins/qbic-nise/extractor.cpp:48 | OR-ing `1 << off` into a word sets bit off and leaves every other bit of the word as it was |
| NiseExtractor.Ones | plugins/qbic-nise/extractor.cpp:45-49 | the set bits of a feature all lie within its chunks |
| NiseExtractor.ZeroOnes | plugins/qbic-nise/extractor.cpp:58 | the zero-filled feature has no bit set |
| NiseExtractor.SetBit | plugins/qbic-nise/extractor.cpp:45-49 | set_bit sets bit b (chunk b / 32, offset b % 32) and no other: the set bits grow by exactly b |
| NiseExtractor.Ranks | plugins/qbic-nise/extractor.cpp:52-56 | rank[i] is the pair (f[i], i) |
| NiseExtractor.Sort | plugins/qbic-nise/extractor.cpp:57 | std::sort of the ranks gives a permutation |
| NiseExtractor.SortAscending | plugins/qbic-nise/extractor.cpp:57 | the sorted ranks are strictly ascending in pair order (value, then index) |
| NiseExtractor.SortedRanks | plugins/qbic-nise/extractor.cpp:52-57 | the sorted ranks hold every (f[c], c) once, in ascending order |
| NiseExtractor.IndicesCount | plugins/qbic-nise/extractor.cpp:59-61 | ranks lo .. hi - 1 name hi - lo distinct indices |
| NiseExtractor.TopCount | plugins/qbic-nise/extractor.cpp:59-61 | K <= 128 leaves 128 - K bits set; a larger K sets none |
| NiseExtractor.TopAbove | plugins/qbic-nise/extractor.cpp:57-61 | every set bit's value is at least every clear bit's value (ties broken by index) |
| NiseExtractor.DefaultTop | plugins/qbic-nise/extractor.cpp:76 | with the default topk of 90, 38 of the 128 bits are set |
| NiseExtractor.Setting | plugins/qbic-nise/extractor.cpp:76-78 | config.get(path, default): the configured value, or the default |
| NiseExtractor.ExtractorImpl.constructor | plugins/qbic-nise/extractor.cpp:65-80 | K, min_size and max_size are the settings donkey.nise.topk, min_size and max_size, defaulting to 90, 80 and 400 |
| NiseExtractor.ExtractorImpl.Binarify | plugins/qbic-nise/extractor.cpp:51-62 | the bits set are exactly the indices ranked K and above: the 128 - K largest values |
| NiseImage.Scale | examples/image-nise/image.h:29 | `a * m / b` in integer arithmetic: the floor of a*m/b, at most m when a <= b and at least m when a >= b |
| NiseImage.QuotientBounds | examples/image-nise/image.h:29 | the same facts of the integer quotient, proved from the division's definition |
| NiseImage.LimitSize | examples/image-nise/image.h:22-39 | the new size fits within max; an image already within max is unchanged; otherwise the longer side becomes max and the other is scaled and rounded down |
| NiseImage.LimitSizeIdempotent | examples/image-nise/image.h:22-39 | bounding twice is bounding once |
| NiseImage.LimitSizeBelow | examples/image-nise/image.h:41-58 | both sides become at least min; an image already large enough is unchanged; otherwise the shorter side becomes min and the other is scaled and rounded down |
| NiseImage.LimitSizeBelowIdempotent | examples/image-nise/image.h:41-58 | raising twice is raising once |
| NiseImage.Mixed | examples/image-nise/image.h:70-76 | the first k grey values are the 0.299/0.587/0.114 mix of each voxel's three channels |
| NiseImage.Gray | examples/image-nise/image.h:60-89 | RGB and grey images convert, keeping width, height and depth, to one channel; a grey image is copied unchanged; any other spectrum throws PluginError |
| NiseImage.GrayIdempotent | examples/image-nise/image.h:78-84 | converting a converted image changes nothing |
| NiseImage.GrayMix | examples/image-nise/image.h:65-77 | each grey voxel of an RGB image is the mix of its R, G and B values |
| NiseImage.MixLoop | examples/image-nise/image.h:66-76 | the RGB loop produces Mixed over all voxels |
| NiseImage.CopyLoop | examples/image-nise/image.h:79-83 | the grey loop copies the data |
| NiseImage.ToGray | examples/image-nise/image.h:60-89 | CImgToGray yields Gray |
| CassRegions.SumIncrement | plugins/qbic-cass/cass.cpp:132 | `++weights[r]` raises the total weight by one |
| CassRegions.SummarizeCounts | plugins/qbic-cass/cass.cpp:25-33 | after inserting pixels, np counts them and cx, cy are the sums of their coordinates |
| CassRegions.SummarizeCovers | plugins/qbic-cass/cass.cpp:25-33 | the box [u1, u2) x [v1, v2) holds every inserted pixel, and each of its four edges is reached by one of them |
| CassRegions.TightStep | plugins/qbic-cass/cass.cpp:26-29 | one more insert keeps each edge of the box on an inserted pixel |
| CassRegions.Box.constructor | plugins/qbic-cass/cass.cpp:19-23 | the empty box: u1 = v1 = INT_MAX, u2 = v2 = INT_MIN, cx = cy = np = 0 |
| CassRegions.Box.Insert | plugins/qbic-cass/cass.cpp:25-33 | insert adds the pixel: np grows by one, cx and cy by its coordinates, and the fields stay those of Summarize over the pixels so far |
| CassRegions.RowPointsMembers | plugins/qbic-cass/cass.cpp:128-136 | the pixels of row i labelled r in columns before j are exactly the ones collected |
| CassRegions.MaskPointsMembers | plugins/qbic-cass/cass.cpp:127-137 | the pixels collected for region r from rows before i are exactly those labelled r |
| CassRegions.PixelsRect | plugins/qbic-cass/cass.cpp:127-128 | i rows of cols pixels are i * cols pixels |
| CassRegions.ScannedAllStep | plugins/qbic-cass/cass.cpp:129-132 | one pixel adds itself to its label's region and to no other |
| CassRegions.NewBoxes | plugins/qbic-cass/cass.cpp:121 | `vector<Box> boxes(regions)`: regions fresh empty boxes |
| CassRegions.CreateBoxes | plugins/qbic-cass/cass.cpp:120-138 | after the scan, each box holds exactly its region's pixels in scan order, weights[r] counts them, and the weights add up to rows * cols |
| CassRegions.ScanMask | plugins/qbic-cass/cass.cpp:127-137 | the row loop leaves every box and weight those of the whole mask |
| CassRegions.ScanNextRow | plugins/qbic-cass/cass.cpp:128-136 | one row's loop extends the boxes and weights by that row |
| CassRegions.Visit | plugins/qbic-cass/cass.cpp:129-132 | a pixel is inserted into its label's box and counted in its weight; nothing else changes |
| CassRegions.MakeParts | plugins/qbic-cass/cass.cpp:147-154 | one part per region, carrying its weight and its box fields |
| CassRegions.ExtractRegions | plugins/qbic-cass/cass.cpp:116-160 | each part is its region's pixel count and box summary, and the counts add up to the image size |
| CassRegions.RegionBox | plugins/qbic-cass/cass.cpp:25-33 | a pixel is collected for region r exactly when it is labelled r, and then it lies inside region r's box, whose count is positive |
| SearchPages.ItemsPerPage | demo/qbic-node/donkey.js:127-130 | the page size is num_of_items when that is a number of at least 1 (or +Infinity), and otherwise the configured default of 20 items; it is always a valid page size |
| SearchPages.PageNumber | demo/qbic-node/donkey.js:134-137 | the page number is `page` when that is a number of at least 0 (or +Infinity), and otherwise 0 |
| SearchPages.Truncate | demo/qbic-node/donkey.js:144 | the integer conversion `slice` applies to a non-negative argument is its floor |
| SearchPages.SliceIndex | demo/qbic-node/donkey.js:144 | a `slice` position never passes the end of the list, and a non-negative finite argument becomes its floor, clipped to the length |
| SearchPages.Slice | webserver/donkey.js:92 | `slice` never returns more elements than the list has |
| SearchPages.PageCount | demo/qbic-node/donkey.js:132 | numOfPages, `Math.floor((len - 1) / n + 1)`, is never negative, also for an empty result |
| SearchPages.Paginate | demo/qbic-node/donkey.js:120-154 | the answer carries the request's id, a valid page number, a non-negative page count and the result's four timings unchanged, with no more hits than the result |
| SearchPages.PageBetween | webserver/donkey.js:74-95 | page p is exactly the hits from where page p starts to where page p + 1 starts, and page starts never decrease |
| SearchPages.PagesTile | webserver/donkey.js:92 | pages 0 .. count - 1 laid end to end are the first hits of the result, with none skipped, repeated or reordered |
| SearchPages.PageVisible | demo/qbic-node/donkey.js:144 | page p holds at least one hit if and only if p is below the ceiling of len / n |
| SearchPages.StartsVisible | webserver/donkey.js:92 | for a finite page size, page p starts before page p + 1 if and only if p is below the ceiling of len / n |
| SearchPages.PageCountExact | webserver/donkey.js:80 | for a whole page size k, numOfPages is the ceiling of len / k, equals the number of non-empty pages, and is 0 for an empty result |
| SearchPages.PageCountNear | demo/qbic-node/donkey.js:132 | for any finite page size the number of non-empty pages is numOfPages or one more |
| SearchPages.FractionalPageCount | demo/qbic-node/donkey.js:132 | with three hits and 2.5 items per page, numOfPages is 1 although page 1 still holds the third hit |
| SearchPages.IntegralPage | demo/qbic-node/donkey.js:144 | for a whole page size k, page p is the hits from p * k to (p + 1) * k, clipped to the list, and holds at most k hits |
| SearchPages.IntegralStart | webserver/donkey.js:92 | for a whole page size k, page p starts at p * k, or at the end when that is past it |
| SearchPages.FixHits | demo/qbic-node/donkey.js:100-103 | the fix-up loop replaces every hit by its fixed-up value, in place, and keeps the number of hits |
| SearchPages.FixResponse | webserver/donkey.js:59-62 | a fresh response comes out of the loop with every hit fixed up and its timings unchanged |
| SearchCache.FirstFree | demo/qbic-node/donkey.js:16-22 | the id newId settles on is at or above its starting point, is not a key of the cache, and every id between the two is a key |
| SearchCache.IssueFresh | webserver/donkey.js:14-20 | the id newId hands out is not in use, is above every id handed out before, becomes the new `cur`, and the cached entries stay as they were |
| SearchCache.IssueNext | demo/qbic-node/donkey.js:16-22 | while every key was handed out by newId, newId returns `cur + 1` and the keys stay within 1 .. cur |
| SearchCache.Cache.constructor | demo/qbic-node/donkey.js:15-17 | a new cache holds no entries and its `cur` is at 0, so the first id is 1 |
| SearchCache.Cache.NewId | webserver/donkey.js:14-20 | the loop over `cur` returns the id and leaves the cache exactly as the functional newId does |
| SearchCache.Cache.Set | demo/qbic-node/donkey.js:104 | set stores the response under the id, replacing any earlier one, and changes nothing else |
| QbicNodeSearch.Search | demo/qbic-node/donkey.js:65-113 | search, with the content fetcher, thriftSearch and the backend, gives the reply and the cache of the functional model of one request |
| QbicNodeSearch.CacheHit | demo/qbic-node/donkey.js:83-85 | a cached query_id is answered with the page of the cached response, whatever the fetcher and the backend would do, and the cache is unchanged |
| QbicNodeSearch.NewQuery | demo/qbic-node/donkey.js:69-71 | a request without a query_id spends a fresh id even when the fetch or the backend fails; the reply is a page if and only if both succeed, and only then is the fixed-up response cached under the new id |
| QbicNodeSearch.UncachedId | demo/qbic-node/donkey.js:92-113 | an uncached query_id spends no new id; the reply is a page if and only if the fetch and the backend succeed, and then the fixed-up response is cached under that same id; on an error the entries stay as they were |
| QbicNodeSearch.FollowUp | demo/qbic-node/donkey.js:104-105 | the query_id of every page answered names the response the page was cut from, so asking again with it is answered from the cache with no change to it |
| WebserverSearch.Search | webserver/donkey.js:39-71 | search, with the backend and searchRespond, gives the reply and the cache of the functional model of one request |
| WebserverSearch.CacheHit | webserver/donkey.js:68-70 | a cached query_id is answered with the page of the cached response, whatever the backend would do, and the cache is unchanged |
| WebserverSearch.Uncached | webserver/donkey.js:54-66 | an uncached request succeeds if and only if the backend does; then the reply carries a fresh id under which the fixed-up response is cached; on an error the cache is unchanged |
| WebserverSearch.IdsConsecutive | webserver/donkey.js:56-57 | every key stays within the ids handed out, and the id given to a new response is `cur + 1` |
| WebserverSearch.FollowUp | webserver/donkey.js:97-107 | the query_id of every page answered names the cached response it was cut from, so asking again with it is answered from the cache with no change to it |

## Left out

- Shard, journal, name translator and server orchestration: `src/donkey.h` only declares them, and their code is not part of this model.
- The HTTP, Thrift, gRPC and Python front ends of the server, `src/server.cpp`, `src/stress.cpp`, signals and logging: these are wire translation, process setup and threads.
- Concurrency and atomics: `at_most_helper::count` (its 32-bit wrap-around is modelled), `BackendSet::cnt` and the asynchronous callbacks of the Node.js front ends are sequential here. The indexes are not mutex-protected in the source either.
- Floating point: values are `real` (or `Floats.FloatValue` where NaN and infinities matter). Rounding, overflow to infinity and signed zero are not modelled.
- The Cosine, L1 and L2 similarities, entropy, descriptor clamping and the SIFT/OpenCV/VLFeat calls, CASS `Box::extract`, `Stat` and the part weights, and the float routines of `mathop.h`: these are floating-point numerics or foreign calls.
- The kgraph library's graph build and search (`KGraph::build`, `oracle.search`), the emd_hat solver and the LSH distance are parameters. The distance in `src/index-lsh.cpp` has no body.
- DonkeyLsh.Index.constructor, DonkeyLsh.NewIndex, DonkeyLshIndex.LSHIndex.constructor, DonkeyLshIndex.LSHIndex.CreateIndex and DonkeyLshIndex.Create: only arguments within `Sized` are modelled: fewer than 32 hash bits, a table count, an initial block count and a record size below 2^32, and an allocation below 2^56. Beyond these bounds the 32-bit and 64-bit wrap-around of the sizing arithmetic is not analysed. Within them, both the case where the initial blocks fit (including no tables at all) and the abort are modelled.
- Err(Abort) stands for a failed `BOOST_VERIFY` or `assert` with the program stopped, as in a debug build. With NDEBUG, `assert` is compiled out and execution would go on with the state at that point; that behaviour is not modelled.
- The LSH hash is modelled as the stub the source has: every record and query goes to bucket 0 of every table.
- `LSHIndex::rebuild` only logs and changes nothing, so it has no member.
- File opening, `wget`, `system`, `popen` and DNS in `src/donkey.cpp`, and the files of `KGraphLite::load`, `recover` and `snapshot`: only the decoding of bytes already read and the success or failure branch are modelled.
- DonkeyKGraphLite.KGraphLite.Load: the source builds a `runtime_error` for a bad magic or a failed read but never throws it. The model reads on in the first case and reports a truncated input as `Truncated` where the source would go on with indeterminate values.
- DonkeyKGraphLite.KGraphLite.Search: requires `0 < S <= 0xFFFF0000`. With S = 0 the source never terminates, and a larger S wraps its 32-bit end mark.
- DonkeyKGraphLite.KGraphLite.Search: requires a well-formed graph (every neighbour id below N and one `M` entry per node) and start ids below N. The source checks neither: the BOOST_VERIFY on neighbour ids at src/kgraph_lite.cpp:321 is commented out, and a bad id would read out of bounds.
- DonkeyKGraphLite.KGraphLite.Search and DonkeyKGraphLite.KGraphLite.Trials: the guarantee that every scored point is reported, farther than epsilon or no nearer than the K-th result, is stated for one trial or for N <= 2^31. Only there are the random start points proved distinct, which the merge of several trials needs; with more trials on a larger graph it is left unstated.
- DonkeyKGraphLite.GenRandom: the mt19937 generator is a parameter `rng`, the t-th output it produces.
- std::sort is an insertion sort here. Its order among equal keys is not modelled: the contracts state sortedness and permutation only.
- NiseImage.LimitSize and NiseImage.LimitSizeBelow: the pixel data of CImg `resize`, the returned scale and the int overflow of `side * max` are not modelled. LimitSizeBelow requires a non-zero shorter side where it resizes, because the source divides by that side.
- Proxy.ProxyService.Search: requires a first backend set with at least one address. The source indexes `backends[0]` and takes the counter modulo `addresses.size()` without a check, which is undefined behaviour when either is empty.
- DonkeyServer.TmpModel: requires a non-empty directory. The source calls `tmp.back()` on the configured `donkey.tmp_dir`, which is undefined behaviour for an empty string.
- NiseExtractor.ExtractorImpl.constructor: requires a non-negative `donkey.nise.topk`. The source reads it with `get<unsigned>`, where a negative configured value is a conversion error that is not modelled.
- NiseImage.LimitSize: requires `max >= 0`. `max_size` is read with `get<int>`, and a negative configured value is not modelled.
- CassRegions: the `INT_MAX`/`INT_MIN` bounds of a `Box` are modelled, but the overflow of its coordinate sums is not. Coordinates are assumed to fit in an int.
- WebExtra: json11 parsing and dumping are a parameter (`JsonLib`). The socket I/O of `server_http.hpp` and the registration of handlers (`add`, `add_default`) are not modelled. The `unordered_multimap` of headers is a sequence in insertion order.
- WebRfc.Encode: the iteration order of the query dictionary's map is the parameter `order`.
- SearchCache: the lru-cache package's eviction and recency are not modelled: the cache keeps every entry. A query_id in a request is modelled as a number, not as the string Express delivers.
- QbicNodeSearch and WebserverSearch: `JSON.parse` of each hit's meta and the thumb prefix are the parameter `fix`. The query-content fetch and the Thrift call are their outcomes, passed in as values.
- SearchPages.PageCount: numOfPages undercounts the non-empty pages when num_of_items is not a whole number. This is stated as SearchPages.FractionalPageCount and SearchPages.PageCountNear, not as a finding, because the front ends accept any number there.
- The web apps, demos, the Thrift mock servers and the config-selection files are Express, DOM and build glue.

## Notes on the source

- DonkeyText.TextObject.Write: `write` takes its count from `parts.size()`, a member `TextObject` does not have. The model uses the number of words.
- DonkeyLshIndex: `search` at src/index-lsh.cpp:76 calls the arena's search with three arguments, while src/lsh.h:160 declares four, and the distance at src/index-lsh.cpp:41-42 returns no value. The model uses the four-argument search with the distance as a parameter.
- DonkeyInvertedIndex: the bin type is written `vector<uint32_t, uint32_t>` and `search` indexes the map in a const method. The model uses a list of (object, tag) pairs and a lookup that finds no bin for an unseen feature.

## Findings

| source | as written | input that shows it | evidently intended | confidence | as-written member | corrected member |
|---|---|---|---|---|---|---|
| src/index-kgraph.cpp:178-188 | below `min_index_size`, rebuild drops the graph but still moves `indexed_size` to `entries.size()`, so search neither walks nor scans those entries | 5 entries with the default minimum of 10000 | the watermark moves only past entries a new graph holds | not executed | DonkeyKGraphIndex.RebuildSmallStrands | DonkeyKGraphIndex.RebuildFixedCovers |
| src/index-kgraph.cpp:165-171 | clear deletes the graph and the entries but keeps `indexed_size`, so entries inserted afterwards below the old watermark are never scanned | any clear after a rebuild that indexed at least one entry | clear resets `indexed_size` to 0 | not executed | DonkeyKGraphIndex.ClearStrands | DonkeyKGraphIndex.ClearFixedCovers |
| src/index-lsh.cpp:98-104 | clear deletes the arena and leaves a null pointer, and insert (line 94) then dereferences it | clear followed by any insert | clear re-creates an empty arena, as KGraphIndex's clear does | not executed | DonkeyLshIndex.ClearThenInsertAsWritten | DonkeyLshIndex.ClearThenInsert |
