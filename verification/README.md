# Gateway kernels in Dafny

A model of the algorithmic kernels of the gateway, and proofs about them. Sockets, files, timers,
cryptography and compression are the environment: what they deliver is a parameter of the model or an
event of a run. Code that changes things step by step is modelled by methods and classes with loops
and invariants, each proved against a specification; code made of expressions is modelled by functions.

| part | modules | main results |
|---|---|---|
| fragmented MP4 | `Mp4Boxes`, `Mp4Init`, `Mp4Segment`, `Mp4Rebase`, `Mp4Written` | parsing the rewritten bytes gives the old box tree with exactly the intended change; rebasing a written segment is writing it with other times |
| raster printing | `RasterPack`, `PagePixels`, `PageGeometry` | the compressor is inverted by the decoder that the format defines; no pixel is lost on the way to the sheet |
| DNS filter lists | `DomainNames`, `HashLaws`, `HashList`, `ListLines`, `ListScan`, `ListStream`, `ListNames`, `ListLaws` | the streaming parser gives one result for every cutting of the text; the decision about a name depends on the names in the text alone |
| DNS messages | `DnsNames`, `DnsQuery`, `DnsResponse`, `DnsAdapt`, `DnsAge`, `ResponseCache` | round trips of queries and responses; answers from the cache age correctly and change nothing else |
| home cache | `StableSort`, `BlobStore`, `FetchPass`, `CacheReport` | what eviction, a fetch pass and the report protocol keep, over whole runs |
| codecs | `Ipp`, `IppCollections`, `Container`, `ContainerEncode`, `PathLaws` | round trips, and exactly which bytes are accepted |
| decisions and state machines | `Topics`, `TopicLaws`, `Outage`, `Buckets`, `QualityReport`, `QualityRun`, `ChatQueue` | a decision procedure is exact; no measurement and no outage of the history gets lost on its way to the report |

`Bytes`, `Splitting` and `Sequences` hold what they share: big-endian fields, splitting and joining of strings, and
filtering of lists.
Strings are their bytes, except in `Topics` and `TopicLaws`, which work on characters.

Where the code and its comments, or the property one would expect, differ, the model follows the code:

- `covers` is not inclusion for all valid filters. A leading wildcard does not match topics that start with
  `$`, although `covers` accepts such pairs (`Topics.LeadingWildcardFails`). And because a topic is never
  empty, `#` lies in `+/#` and `/#` in `/+/#`, although `covers` denies it (`Topics.DeniedInclusion`,
  `Topics.DeniedForPlugins`). `Topics.CoversExact` gives the exact condition.
- `hashDomainBytes` refuses names without a letter or underscore that `cleanDomain` accepts, such as `1-2.3`
  (`DomainNames.DigitsAndDashesDiffer`); `DomainNames.HashDomainExact` gives the exact condition.
- A line of exactly 1024 bytes is read with a line end of LF and skipped as too long with CR LF;
  `ListLaws.CrLfExact` says that this is the only difference.
- A last line of a list that is too long and has no line end is not counted as skipped, unlike every other
  line that is too long (`ListStream.TailNotCounted`); `ListStream.TailExact` says exactly when the program
  and the plain reading agree.
- After a full report the home cache forgets all pending changes, also those made while the report was on
  its way (`CacheReport.LostUpdate`); `CacheReport.FullReportExact` says exactly when the views agree, and
  `CacheReport.RunWrongExactly` about which blobs the server is wrong in every run.
- `encode` of a plugin package accepts files that `decode` refuses, such as two paths that differ in case
  only (`ContainerEncode.LikePathsRefused`); `ContainerEncode.RoundTrip` says exactly which.
- A response whose names point into its own TTL fields is changed by ageing in more than its TTLs
  (`DnsAge.NameInTtl`); `DnsAge.AdaptedParses` says when only the TTLs change.
- An acknowledged quality report also takes out a waiting sample that has the time of a sent one
  (`QualityReport.TwinLost`); `QualityReport.TakesOutTheSent` gives the exact condition, and
  `QualityRun.EveryMeasurement` shows that it does not happen while time does not run backwards.

## Model

| member | source | states |
|---|---|---|
| `Mp4Boxes.Boxes` | src/cameras/fmp4.js:13-32 | the loop over box headers gives exactly the boxes of the recursive reading, or fails where that fails (size below the header or past the end) |
| `Mp4Boxes.WalkIsPlacedParts` | src/cameras/fmp4.js:13-32 | reading headers in place is the same as cutting the bytes into boxes: same success, same kinds, sizes and positions |
| `Mp4Boxes.PartsAreLaid` | src/cameras/fmp4.js:13-32 | the boxes that are read, laid end to end, and the slack of under 8 bytes are the input |
| `Mp4Boxes.PartsOfLaid` | src/cameras/fmp4.js:13-32 | boxes laid end to end (only the last one open-ended) with such slack are read back as these boxes and this slack |
| `Mp4Boxes.BoxExactly` | src/cameras/fmp4.js:17-27 | bytes are read as one whole box of a kind, header length and body exactly if they are one of the three ways to write it: with a 32-bit size, with size 0, or with size 1 and a 64-bit size |
| `Mp4Init.WithMehd` | src/cameras/fmp4.js:147-169 | the program's loops and cuts give the new init segment and offset of the specification, and fail exactly where it does |
| `Mp4Init.SpliceMehd` | src/cameras/fmp4.js:154-168 | from the located boxes: the new file and offset of the specification; fails exactly if the duration does not fit 64 bits or a new size does not fit 32 bits |
| `Mp4Init.OpenInit` | src/cameras/fmp4.js:148-153 | finds moov and, in it, mvex with their children, exactly if the box tree has both with plain headers |
| `Mp4Init.OpensExactly` | src/cameras/fmp4.js:148-153 | a segment is opened at given boxes exactly if, in the walk over the bytes, these are the first moov and the first mvex in it, both with headers of 8 bytes, and the children of mvex can be walked |
| `Mp4Init.CutWithout` | src/cameras/fmp4.js:156-157 | the children of mvex other than mehd, in order and byte for byte |
| `Mp4Init.WithoutIs` | src/cameras/fmp4.js:156 | exactly the boxes of other kinds stay, in order |
| `Mp4Init.OffsetOf` | src/cameras/fmp4.js:164-168 | the position of the mvex in the new file |
| `Mp4Init.MehdIsTheOnlyChange` | src/cameras/fmp4.js:147-169 | parsing the rewritten bytes gives the old top-level boxes, moov children and mvex children, except that mvex now starts with one mehd and has no other |
| `Mp4Init.DurationField` | src/cameras/fmp4.js:147-169 | read with the program's own box offsets, the reported offset lies in the first child of mvex, the only mehd; a reader that follows section 8.8.2 of ISO/IEC 14496-12 (64 bits in version 1, 32 bits otherwise, a body of exactly that length, no flags) takes exactly the given ticks from it |
| `Mp4Init.OverwriteDuration` | src/cameras/cameras.js:636-640 | writing another duration at that offset gives exactly the file that would have been built with that duration |
| `Mp4Init.RewriteTwice` | src/cameras/fmp4.js:147-169 | rewriting a rewritten init segment gives what rewriting the original gives: the mehd is replaced, not added |
| `Mp4Init.FitsForAny` | src/cameras/fmp4.js:147-169 | whether the two new sizes fit their 32-bit fields depends on the box tree alone and not on the duration |
| `Mp4Init.FitsExactly` | src/cameras/fmp4.js:157-161 | the two new sizes fit exactly if mvex with 28 bytes and its kept children, and moov with mvex so replaced, are below 2^32 bytes |
| `Mp4Rebase.TfdtsOf` | src/cameras/fmp4.js:99-113 | the decode times of a segment with their places and tracks, for every segment whose tfhd and tfdt boxes hold their fields |
| `Mp4Rebase.FirstTimes` | src/cameras/fmp4.js:116-120 | the loop gives the first time of each track |
| `Mp4Segment.FirstTimesAre` | src/cameras/fmp4.js:116-120 | the base of a track is the value of its first decode time |
| `Mp4Rebase.Rebase` | src/cameras/fmp4.js:126-138 | the program gives the rebased segment of the specification |
| `Mp4Rebase.Patch` | src/cameras/fmp4.js:129-137 | overwriting the fields in place in the joined buffer, in order |
| `Mp4Segment.PatchIsRebased` | src/cameras/fmp4.js:126-138 | patching the fields found in the joined buffer is the same as rewriting each kept box by itself |
| `Mp4Segment.RebasedBoxes` | src/cameras/fmp4.js:126-138 | the result has the same boxes in the same order without styp and sidx, with the same kinds, sizes and headers |
| `Mp4Segment.KeptIs` | src/cameras/fmp4.js:127 | exactly the boxes other than styp and sidx are copied, in order |
| `Mp4Segment.RebasedTimes` | src/cameras/fmp4.js:126-138 | reading the times of the result gives the old list, track by track and width by width: a value with a base is lower by exactly the base, or 0 if the base is larger; a value without a base is the same |
| `Mp4Segment.RebasedElsewhere` | src/cameras/fmp4.js:126-138 | every byte of the kept boxes outside the time fields is unchanged |
| `Mp4Segment.RebasedStartsAtZero` | src/cameras/fmp4.js:116-138 | a segment rebased by its own first times has the same tracks, each starting at 0 |
| `Mp4Segment.TrafKeeps` | src/cameras/fmp4.js:102-110 | rewriting the time of a traf keeps it a traf with the same children, and its time is the lowered one |
| `Mp4Segment.MoofKeeps` | src/cameras/fmp4.js:101-111 | the same for all trafs of a moof |
| `Mp4Written.RebasedIsWritten` | src/cameras/fmp4.js:126-138 | for every segment written out from its contents by a writer that shares nothing with the reader (any index boxes, movie fragments with any number of tracks of either width, and other boxes): rebasing gives byte for byte the segment written without index and with the lowered times |
| `Mp4Written.WrittenTimes` | src/cameras/fmp4.js:99-113 | the times read from such a segment are the tracks, widths and numbers that were written, in order |
| `RasterPack.PackLine` | src/print/convert.js:354-384 | the packed line is read back by the decoder as exactly the line, whatever follows it, and is no longer than the line plus one byte a pixel, so it stays inside the buffer allocated up front |
| `RasterPack.PackNext` | src/print/convert.js:367-382 | every round moves on and writes one packet, with a control byte other than 128, that draws exactly the pixels it passes |
| `RasterPack.RunLength` | src/print/convert.js:368-369 | the run is as long as possible up to 128 equal pixels |
| `RasterPack.LiteralEnd` | src/print/convert.js:376-378 | the literal ends before two equal pixels, at the end of the line or after 128 pixels |
| `RasterPack.UnpackPackets` | src/print/convert.js:350-353 | a list of packets is read back in order, with what follows it |
| `RasterPack.PackPage` | src/print/convert.js:387-400 | the packed page is read back as exactly the rows of the page, with nothing left over |
| `RasterPack.RepeatCount` | src/print/convert.js:394-395 | the lines counted as repetitions are equal to the line, at most 255 of them |
| `RasterPack.UnpackGroups` | src/print/convert.js:386-400 | groups of repeated lines are read back in order |
| `PageGeometry.LayoutFits` | src/print/convert.js:270-282 | the page lies on the sheet at its offset, centred up to one pixel; it is turned only if its sides differ by more than a point, and then so that it stands as the sheet does; it is never enlarged, and not made smaller if it fits; the sheet has the nearest whole number of pixels |
| `PageGeometry.LayoutScales` | src/print/convert.js:270-282 | width and height are scaled by one factor, the largest up to 1 with which the page fits, to the nearest pixel but at least one |
| `PageGeometry.Rotate90` | src/print/convert.js:285-296 | pixel (x, y) of the result is pixel (width - 1 - y, x) of the page, for every pixel |
| `PageGeometry.FourTurns` | src/print/convert.js:285-296 | four turns give the page back, byte for byte |
| `PageGeometry.TwoTurns` | src/print/convert.js:285-327 | two turns are the rotated back side |
| `PageGeometry.BackSide` | src/print/convert.js:311-327 | rotated: every pixel comes from the opposite corner; flipped: from the mirrored row; otherwise the page itself |
| `PageGeometry.RotateRow` | src/print/convert.js:320-324 | one row is written backwards to its place and disturbs no pixel already placed |
| `PageGeometry.FlipRow` | src/print/convert.js:316-319 | one row is copied as a whole to its place and disturbs no pixel already placed |
| `PageGeometry.BackTwice` | src/print/convert.js:311-327 | the back side of the back side is the page |
| `PageGeometry.OnSheet` | src/print/convert.js:299-308 | each pixel of the page is at its place on the sheet, what does not fit is cut off, and all else is white |
| `PageGeometry.PageOnSheet` | src/print/convert.js:460-470 | a page in the size that layout asks for comes onto the sheet with all its pixels |
| `PagePixels.SamePixels` | src/print/convert.js:270-327 | two images of one size with the same pixels are the same bytes |
| `PagePixels.SpliceRow` | src/print/convert.js:304-306 | copying a row of pixels changes these pixels and no others |
| `DomainNames.HashDomainBytes` | src/dns/listParser.js:36-69 | the one-pass loop over the bytes gives the verdict of the scan on that slice alone |
| `DomainNames.HashDomainExact` | src/dns/listParser.js:36-69 | for every text: the hash of the cleaned name if it is ASCII without white space around it, cleanDomain accepts it and it has a letter or underscore; other ASCII text is refused, and other text never gets a hash here |
| `DomainNames.HashBelow53Bits` | src/dns/domainSet.js:21-33 | every hash is below 2^53 |
| `HashLaws.OneByteApart` | src/dns/domainSet.js:21-33 | two names of one length that differ in exactly one byte never have the same hash, nor the same first half before it is cut to 21 bits |
| `HashLaws.MixState` | src/dns/domainSet.js:26-28 | each round is a bijection: different states stay different under the same byte |
| `HashLaws.FinishApart` | src/dns/domainSet.js:30-32 | the last step keeps all 32 bits of the second half apart |
| `HashLaws.FinishParts` | src/dns/domainSet.js:30-32 | the upper 21 bits of a hash are the lowest of the first half, and the lower 32 depend on the second half alone |
| `DomainNames.LowerExact` | src/dns/listParser.js:50 | lower-casing makes two texts the same exactly if they differ in the case of the letters A to Z only |
| `DomainNames.VerdictAlike` | src/dns/listParser.js:36-69 | the case of letters makes no difference to the verdict and the hash |
| `DomainNames.LabelExact` | src/dns/domainSet.js:17 | a label has 1 to 63 of the characters a to z, 0 to 9, _ and -, and no - at either end |
| `DomainNames.CleanExact` | src/dns/domainSet.js:50-65 | a lower-case text is a name exactly if it has up to 253 bytes, at least two good labels and a character other than digits and dots |
| `DomainNames.DigitsAndDashesDiffer` | src/dns/listParser.js:36-69 | a name that cleanDomain accepts and hashDomainBytes refuses |
| `HashList.HashBuilder.AddHash` | src/dns/domainSet.js:93-100 | the added hashes are the old ones and the new one, also when the buffer grows |
| `HashList.HashBuilder.Finish` | src/dns/domainSet.js:109-119 | returns the canonical array of what was added |
| `HashList.DedupPrefix` | src/dns/domainSet.js:110-114 | removing neighbours that repeat, in place, while reading behind the writing position |
| `HashList.CanonicalIsTheSet` | src/dns/domainSet.js:109-119 | the canonical array is strictly increasing and has exactly the added hashes |
| `HashList.StrictlyUpUnique` | src/dns/domainSet.js:109-119 | there is one strictly increasing array for a set, so the order of the adds does not matter |
| `HashList.LowerBound` | src/dns/domainSet.js:67-75 | everything in front of the result is smaller and everything from it on is not |
| `HashList.HasHash` | src/dns/domainSet.js:77-80 | true exactly if the number is in the array |
| `HashList.MatchHashes` | src/dns/domainSet.js:138-147 | true exactly if no suffix hash is an exception and the hash of the whole name is in exact or some suffix hash is in suffix |
| `HashList.Suffixes` | src/dns/domainSet.js:36-44 | the name itself and exactly what follows each of its dots, the longest first |
| `HashList.MatchesName` | src/dns/domainSet.js:149-151 | unless the hash of the name or of a parent is that of another listed name: a name is matched exactly if it or a parent is listed and neither it nor a parent is an exception |
| `ListScan.ParseLineBytes` | src/dns/listParser.js:88-138 | the result depends only on the bytes of the line, wherever in a buffer it stands, and is that of the reference form |
| `ListScan.ParseAdblockBytes` | src/dns/listParser.js:93-107 | the same for a filter rule, with its options and exceptions |
| `ListScan.ParseHostsBytes` | src/dns/listParser.js:114-129 | the same for a hosts line, with all its names in order |
| `ListScan.ParseDomainBytes` | src/dns/listParser.js:131-138 | the same for a bare domain |
| `ListLaws.BlanksAround` | src/dns/listParser.js:30-90 | any number of blanks, tabs, carriage returns, vertical tabs and form feeds before and behind a line change neither its entries nor whether it counts as skipped |
| `ListLaws.DomainLine` | src/dns/listParser.js:130-137 | in a domain list a name alone, behind `*.` or behind `.` is one suffix entry with the hash of the name |
| `ListLaws.IdnLine` | src/dns/listParser.js:71-76 | a word that is not ASCII, of any bytes but blanks and `#`, goes to the slow path as it stands |
| `ListLaws.RuleLine` | src/dns/listParser.js:93-107 | `||name^` is a suffix entry and `@@||name^` an exception, exactly if nothing, `$important`, `$all` or `$document` follows, and no entry otherwise |
| `ListLaws.HostsLine` | src/dns/listParser.js:115-129 | an address and names behind it, with any blanks between: one exact entry for each name, in order, but none for the three names of the machine itself |
| `ListLaws.CommentLine` | src/dns/listParser.js:93-109 | a line that starts with `#` or `!`, and in filter rules also `[`, has no entry and does not count as skipped |
| `ListLaws.CommentBehind` | src/dns/listParser.js:110-114 | in lists of domains and hosts a comment behind a line changes nothing |
| `ListLaws.SkippedExact` | src/dns/listParser.js:159-166 | a line without an entry counts as skipped exactly if it is not blank and starts with none of these signs |
| `ListLaws.LinesCounted` | src/dns/listParser.js:159-183 | over any lines: counted are those of up to 1024 bytes; skipped are the longer ones and those without an entry that are neither blank nor a comment |
| `ListStream.ParseListStream` | src/dns/listParser.js:144-193 | for every cutting of a text into chunks: the three arrays, line count, skip count or the failure that the whole text gives when it is split at line ends under the 1024-byte rule |
| `ListStream.ChunkLines` | src/dns/listParser.js:172-183 | after each line of a chunk the counters are those of all complete lines so far, and the unfinished line is kept or known to be too long |
| `ListStream.KeepTail` | src/dns/listParser.js:184-188 | what is kept of an unfinished line across chunks |
| `ListStream.AddsGrow` | src/dns/listParser.js:155-158 | more text never means fewer entries, so stopping at the limit in the middle is stopping at the limit of the whole |
| `ListStream.Collect` | src/dns/listParser.js:150-158 | each builder, of whatever first capacity, returns the canonical array of the entries of its kind |
| `ListStream.ParsedListHolds` | src/dns/listParser.js:191-192 | the arrays are strictly increasing and hold exactly the hashes that the lines added |
| `ListStream.TailExact` | src/dns/listParser.js:171-190 | the program gives what reading every line alike gives, exactly if the last line is not too long or the list is too large anyway |
| `ListStream.TailNotCounted` | src/dns/listParser.js:184-190 | 1025 bytes without a line end: one skipped line by the plain reading, none by the program |
| `ListLaws.CrLfExact` | src/dns/listParser.js:171-190 | a text with every LF written as CR LF gives the same arrays, line count and skip count exactly if no line with its end is 1024 bytes long, unless the list is too large |
| `ListLaws.CrLfTally` | src/dns/listParser.js:171-190 | the complete lines of the two texts are tallied alike exactly under that condition, and otherwise fewer lines are read |
| `ListNames.LineHashed` | src/dns/listParser.js:71-138 | the entries of a line are the hashes of exactly the cleaned names that stand in it |
| `ListNames.ListHoldsNames` | src/dns/listParser.js:144-193 | the arrays of a parsed list hold exactly the hashes of the names in its text, but for lines that are too long |
| `ListNames.LoadAndAsk` | src/dns/listParser.js:144-193 | a list loaded from any chunks and asked about a name: unless it is too large or hashes collide, the answer is yes exactly if neither the name nor a parent is an exception in the text, and the name, or with all below it the name or a parent, is listed there |
| `DnsNames.ReadNameLoop` | src/netwatch/dnsWire.js:49-72 | ends for every buffer, wherever its pointers point; gives the name of the recursive reading, and the next position lies behind the start and inside the buffer |
| `DnsNames.ReadWire` | src/netwatch/dnsWire.js:49-72 | a name that is written out is read back wherever it stands |
| `DnsNames.ReadPointer` | src/netwatch/dnsWire.js:58-64 | a pointer to such a name reads as that name and takes two bytes |
| `DnsNames.ChainExact` | src/netwatch/dnsWire.js:49-72 | a name behind any number of pointers is read exactly if these are at most 16 and it has at most 128 labels, and the message goes on behind the first pointer |
| `DnsNames.ReadQuestionLoop` | src/dns/wire.js:20-35 | the loop gives the labels of the recursive reading |
| `DnsNames.QuestionIsWire` | src/dns/wire.js:20-35 | what is read as a question is exactly its labels with their lengths, at most 255 bytes |
| `DnsNames.ReadQuestionWire` | src/dns/wire.js:20-35 | and every such name is read as a question |
| `DnsNames.LabelsOfDotted` | src/dns/wire.js:109-119 | splitting a dotted name gives its labels back |
| `DnsNames.TextsAgain` | src/dns/wire.js:38-47 | the texts of labels are labels again, their own texts, and join to a name that splits into them |
| `DnsNames.TextsExact` | src/dns/wire.js:38-47 | labels have a text exactly if all their bytes are printable ASCII other than blank and dot |
| `DnsQuery.ParseQueryLoop` | src/dns/wire.js:66-107 | the program's loops give the parsed query of the specification, with its error cases |
| `DnsQuery.RecordsLoop` | src/dns/wire.js:89-99 | records are skipped and the EDNS record is found as the specification says, where it throws and where it gives up |
| `DnsQuery.QueryAccepted` | src/dns/wire.js:66-107 | no query has fewer than 12 or more than 65535 bytes or is a response; a question needs a count of 1, at most 512 records and a readable name; any other message is refused only if the name of a record in it cannot be read |
| `DnsQuery.BuiltQueryParses` | src/dns/wire.js:149-158 | a built query parses to its id, name, type, class, CD and DO; in its bytes RD is set, CD is as asked, the counts are 1, 0, 0 and 0 or 1, and with EDNS it ends with the 11 bytes of an OPT record for 1232 bytes |
| `DnsQuery.AnyOptIsRead` | src/dns/wire.js:90-99 | any OPT record is read with its size, but at least 512, its version and DO as the highest of the 16 flags, whatever its extended code and options |
| `DnsQuery.RequeryKeepsQuestion` | src/dns/wire.js:66-158 | re-encoding any query that is accepted with a good name, and parsing the result, keeps name, type, class, CD and DO |
| `DnsResponse.ParseResponseLoop` | src/dns/wire.js:197-248 | the program's loop gives the parsed response of the specification |
| `DnsResponse.RecordLoop` | src/dns/wire.js:219-243 | record after record, up to the first that is bad |
| `DnsResponse.ResponseAccepted` | src/dns/wire.js:197-210 | a parsed response has at least 12 bytes, QR, at most one question and at most 512 records, and its id, code, truncation and answer count are those of the header |
| `DnsResponse.SoaTtlIs` | src/dns/wire.js:231-235 | an SOA record (type 6) of the authority section with names written out sets the negative TTL to the lesser of its TTL and its last field |
| `DnsResponse.NoSoaNoTtl` | src/dns/wire.js:231-235 | no other record touches the negative TTL |
| `DnsResponse.AnswerIsRead` | src/dns/wire.js:178-184 | a record that was written is read back, its name written out or as pointer 0xC00C |
| `DnsResponse.AnswersAreRead` | src/dns/wire.js:177-185 | so are all of them, one after the other, up to what follows |
| `DnsResponse.OptIsSkipped` | src/dns/wire.js:129-146 | the OPT record, with or without an extended error, is neither an answer nor has it a TTL |
| `DnsResponse.ResponseRoundTrip` | src/dns/wire.js:164-248 | the response to any query with a question parses to the same id, code, truncation, question and answers in order, their names in lower case and their TTLs as they fit the field, with at most 512 records including OPT; and its bytes are a reply to the bytes of the query: id, opcode, RD, CD and question are those of the query, QR and RA are set, AA, Z and AD are not, every answer has class IN, and exactly if the query had EDNS the message ends with an OPT record for 1232 bytes with its DO and with the given extended error as option 15 |
| `DnsResponse.ReplyWithoutQuestion` | src/dns/wire.js:164-187 | the reply to a query whose question cannot be read is a header alone, with the same bits |
| `DnsResponse.ParsedAsks` | src/dns/wire.js:66-107 | the question of a parsed query is its labels as they stand in the message; it has a name exactly if all of them are printable, then in lower case; type and class are the two fields behind |
| `DnsAdapt.ParsedTtls` | src/dns/wire.js:219-243 | ttlOffsets are exactly the TTL fields of all records but OPT, in order and apart, and minTtl is the least TTL of the answer and authority records |
| `DnsAdapt.AdaptResponse` | src/dns/wire.js:255-270 | id and, if it has the same length, question are replaced, each TTL is lowered by the age and not below 0, and every other byte is unchanged |
| `DnsAdapt.RestoredExactly` | src/dns/wire.js:258-262 | in a response with a written question the question of the client is put back exactly if it has the same length |
| `DnsAdapt.LowerAllTtls` | src/dns/wire.js:263-268 | the loop lowers each field once and touches nothing else |
| `DnsAdapt.ParsedFront` | src/dns/wire.js:258-262 | a question that is put back ends where the records start, so it hits no TTL field of a parsed response |
| `DnsAdapt.AgedAboveZero` | src/dns/wire.js:255-270 | in a response younger than its least TTL every answer and authority TTL is lowered by exactly the age and stays at least 1 |
| `DnsAge.AdaptedParses` | src/dns/wire.js:197-270 | an adapted response parses to the original under the new id with every TTL lowered, and nothing else, if its names are read through no id or TTL byte (and no pointer has its low byte in the question) and the question put back differs in case only |
| `DnsAge.ReadAlike` | src/netwatch/dnsWire.js:49-72 | a name that is read through no byte that was overwritten reads the same up to case, and ends at the same place |
| `DnsAge.NameInTtl` | src/dns/wire.js:255-270 | a response with a name that points into its own TTL field and has another name when it is one second old |
| `ResponseCache.TtlFor` | src/dns/responseCache.js:32-39 | nothing truncated or failed is kept; a response with answers is kept for exactly its least TTL or a day, whichever is less, and not at all without a TTL; a negative one for exactly the negative TTL or an hour, whichever is less, and for a minute if there is no SOA record |
| `ResponseCache.Cache.constructor` | src/dns/responseCache.js:13-17 | an empty cache is valid |
| `ResponseCache.Cache.Get` | src/dns/responseCache.js:21-29 | no expired entry is returned; a hit comes with its age and becomes the most recently used; nothing else changes |
| `ResponseCache.Cache.Set` | src/dns/responseCache.js:41-54 | stored exactly if it may be kept and is not too large; replaces the entry under its key; as few as needed of the least recently used go; the new entry survives; both limits hold and the byte count is the sum of the lengths |
| `ResponseCache.Cache.Evict` | src/dns/responseCache.js:49-52 | what is left is the longest end of the list within both limits |
| `ResponseCache.LastSurvives` | src/dns/responseCache.js:49-52 | the entry stored last survives if it fits by itself |
| `ResponseCache.Cache.Clear` | src/dns/responseCache.js:61-64 | nothing is left and the count is 0 |
| `ResponseCache.HitIsYoung` | src/dns/responseCache.js:21-39 | a positive hit is younger than the least TTL of its answer and authority records |
| `ResponseCache.AnswerFrom` | src/dns/resolver.js:62-97 | an answer is given exactly if an entry is there and not expired; it is the stored response under the id and question of the client; if positive, every answer and authority TTL is the original minus the age and at least 1; and if its names are clear of what is overwritten, it parses to the stored response with its TTLs lowered |
| `StableSort.SortBySorts` | src/cache/store.js:150 | sorting gives the rising permutation |
| `StableSort.SortKeepsTies` | src/cache/store.js:150 | entries that the comparison does not tell apart keep their order |
| `BlobStore.Store.constructor` | src/cache/store.js:25-34 | an empty store uses no bytes |
| `BlobStore.Store.Put` | src/cache/store.js:55-61 | usedBytes stays the sum of the sizes when an item is added or replaced |
| `BlobStore.Store.Commit` | src/cache/store.js:124-129 | the item is there, counted, and pending as added, no longer as removed |
| `BlobStore.Store.Touch` | src/cache/store.js:118-121 | only the last use changes |
| `BlobStore.Store.Remove` | src/cache/store.js:131-137 | the item is gone, no longer counted, and pending as removed if it was there |
| `BlobStore.Store.MakeRoom` | src/cache/store.js:143-161 | success: the victims are the shortest sufficient prefix of the unprotected blobs by rank and last use, and the new blob fits; said of the items alone: no protected blob is gone, a blob that stays has a higher rank than one that is gone or the same and was not idle longer (by last use, or by the time it was stored if never used), and without some one of the victims there would be too little room; failure: nothing changed |
| `BlobStore.TouchThenMakeRoom` | src/cache/store.js:118-161 | a blob used just now goes only if every other blob of its rank goes too |
| `BlobStore.FairRoom` | src/cache/store.js:145-157 | the same about the items, for the fewest ranked blobs that free enough |
| `BlobStore.Store.Victims` | src/cache/store.js:151-157 | the loop stops at the fewest candidates that free enough |
| `BlobStore.RankedIs` | src/cache/store.js:145-150 | every unprotected blob once and no protected one, by rank and then by last use |
| `BlobStore.VictimsAreLowest` | src/cache/store.js:143-161 | no blob that stays, of those that could go, ranks below a victim or ranks alike and was used earlier |
| `BlobStore.RoomExactlyIf` | src/cache/store.js:143-161 | room can be made exactly if the new blob fits beside those that must stay |
| `FetchPass.RoomFor` | src/cache/cache.js:182-189 | room is made exactly if the blob fits beside those wanted as much or more; these stay, and whoever goes is not wanted or wanted less |
| `FetchPass.Fetch` | src/cache/cache.js:177-206 | one wanted blob: it is there or does not fit, or room is made and the download tried; after a success it is stored as wanted and the bytes are within the limit, after a failure they have not grown |
| `FetchPass.Pass` | src/cache/cache.js:174-207 | over a whole pass: what it fetched it still has, with the size and kind that were wanted, and every other blob is as it was; the bytes stay within a limit at which a blob was fetched and never grow without one; every loss was for a blob wanted more; nothing wanted as much as the most wanted is lost; the pass goes through all wanted blobs unless three downloads failed or one was aborted, and what it looked at and is missing at the end does not fit beside what is wanted as much or more, or its own download failed |
| `FetchPass.UnwantedFirst` | src/cache/cache.js:184-188 | a blob that is not wanted goes before a wanted one if that has a priority above -10^15, and behind it if below |
| `FetchPass.SortedWant` | src/cache/cache.js:174 | the list is in falling priority and has each entry once |
| `FetchPass.TopStays` | src/cache/cache.js:182-189 | a blob wanted at least as much as every other is never evicted |
| `CacheReport.StepKeepsInv` | src/cache/cache.js:224-271 | every step, in every interleaving of store changes, posts and reports, keeps: added and removed fit the store, a delta report on its way says nothing that is not pending if it is no longer so, and while no full report is needed or on its way the server is wrong about exactly the blobs that the last full report missed |
| `CacheReport.InitInv` | src/cache/cache.js:224-230 | a fresh cache, which needs a full report first, has this invariant whatever the server holds |
| `CacheReport.RunWrongExactly` | src/cache/cache.js:224-271 | in every run, whatever happens when, the blobs that the server is wrong about while no full report is needed or on its way are exactly those that changed during the last full report and not since |
| `CacheReport.RunInSync` | src/cache/cache.js:224-271 | in every run that leaves the store alone during full reports, also when posts fail half-way, the server view plus added minus removed is the store whenever no full report is needed or on its way |
| `CacheReport.FailureForcesFull` | src/cache/cache.js:224-269 | after a report failed, whatever happens to the store, the next report is full and lists all of it |
| `CacheReport.FullReportExact` | src/cache/cache.js:224-266 | a full report from begin to successful end, with any changes of the store in between: the server has the store as it was at the begin, nothing is left to report, it is wrong about exactly what differs since, and the views agree exactly if the store is again as it was |
| `CacheReport.FewestPosts` | src/cache/cache.js:236-243 | a report takes the fewest posts of up to 5000 entries of each list, all but the last of them full, each the next stretch of the lists |
| `CacheReport.FullSentStays` | src/cache/cache.js:238-260 | while a full report is sent, the server has exactly the parts sent so far, whatever happens to the store |
| `CacheReport.LostUpdate` | src/cache/cache.js:261-263 | a run after which the server is wrong about exactly the blob stored during a full report |
| `CacheReport.HomeCache.BeginReport` | src/cache/cache.js:226-229 | takes the snapshot that the protocol allows |
| `CacheReport.HomeCache.NextPost` | src/cache/cache.js:236-253 | the bodies of the posts, in parts of limited size, have the effect of the protocol's posts |
| `CacheReport.HomeCache.Posted` | src/cache/cache.js:254-255 | the answer to a post, applied by the server or not, is a step of the protocol |
| `CacheReport.HomeCache.FinishReport` | src/cache/cache.js:261-270 | clearing the pending sets is the protocol's last step |
| `CacheReport.HomeCache.CommitBlob` | src/cache/store.js:124-129 | storing a blob is a step of the protocol |
| `CacheReport.HomeCache.RemoveBlob` | src/cache/store.js:131-137 | removing a blob is a step of the protocol |
| `Ipp.DecodeResponseLoop` | src/print/ipp.js:123-163 | the program's loop, with group, last name and stack of collections, gives the message of the specification, with its error cases |
| `Ipp.MessageRoundTrip` | src/print/ipp.js:79-163 | decoding an encoded message followed by any document gives the code, request id, groups that are not empty, and the document, for supported tags and non-empty names and value lists |
| `Ipp.AttrMapIs` | src/print/ipp.js:68-76 | with distinct names a decoded group has exactly its attributes, each with its values in order |
| `Ipp.ValuesAreRead` | src/print/ipp.js:68-76 | further values, sent without a name, join those of the last name in order |
| `Ipp.SectionsAreRead` | src/print/ipp.js:79-92 | group after group is read, empty ones being left out |
| `Ipp.PairsAreRead` | src/print/ipp.js:101-106 | ranges and resolutions are read with their signs |
| `Ipp.LanguageIsRead` | src/print/ipp.js:108-113 | of a text with its language the text is read |
| `Ipp.OrphanValue` | src/print/ipp.js:132-163 | a value without a name at the start of a group belongs to no attribute |
| `Ipp.TagsAre` | src/print/ipp.js:92-120 | the tags 0x21 and 0x23 carry integers, 0x22 a boolean, 0x30 and 0x41 to 0x49 texts, and 0x10, 0x12, 0x13 and 0x31 are read as nothing |
| `IppCollections.ItemsAreRead` | src/print/ipp.js:141-158 | the inside of a collection, with collections in it, is read into that collection, and everything else stays as it is |
| `IppCollections.CollectionIsRead` | src/print/ipp.js:141-158 | a collection nested up to eight deep, the first value of its attribute or a further one without a name, becomes one more value of that attribute, and all other values and collections stay as they were |
| `IppCollections.TooDeep` | src/print/ipp.js:141-146 | a collection inside eight others is refused, and one less deep is not |
| `IppCollections.CollectionShows` | src/print/ipp.js:141-158 | in every message that has grown from there, that value shows exactly the members and values that were sent, in order |
| `IppCollections.BuiltShows` | src/print/ipp.js:141-158 | the objects that are built, followed through their references, are the nested collections |
| `IppCollections.TokensAreDecoded` | src/print/ipp.js:132-140 | values framed in bytes are decoded one after the other |
| `IppCollections.MessageWithCollections` | src/print/ipp.js:123-163 | a whole message with plain attributes and attributes of any number of collections, in any number of groups, is decoded to its code, id and document, and each group shows exactly the attributes, members and values that were sent, in order |
| `Container.CheckPath` | src/edge/gcplugin.js:25-34 | accepts exactly relative paths of up to 12 good segments and 200 bytes |
| `PathLaws.PathExact` | src/edge/gcplugin.js:19-34 | a path is accepted exactly if it has 1 to 200 letters, digits, `_`, `-`, `.` and `/`, at most 11 slashes, none at an end or next to another, no dot at its start or behind a slash, and no 101 bytes without a slash |
| `PathLaws.StaysInside` | src/edge/gcplugin.js:25-34 | followed from any folder, with `..` leading up and `.` staying, an accepted path goes one level down with every segment and never leaves the folder |
| `PathLaws.DecodedInside` | src/edge/gcplugin.js:67-98 | so does every file of every package that decode accepts |
| `Container.DecodeLoop` | src/edge/gcplugin.js:67-98 | the program's loops give the files or the error of the specification |
| `Container.FolderLoop` | src/edge/gcplugin.js:93-96 | looks at every folder of a path |
| `Container.FoldersAre` | src/edge/gcplugin.js:93-95 | the joined first segments of a path are exactly its beginnings before a slash |
| `Container.CollidesIs` | src/edge/gcplugin.js:92-97 | the check fails exactly if some path lies in another file, in any case |
| `Container.FilesAreLaid` | src/edge/gcplugin.js:71-90 | the files that are read have good paths that differ in any case, keep the limits, and stand one after the other up to the end |
| `Container.LaidAreRead` | src/edge/gcplugin.js:71-90 | and every such list is read as it is laid out |
| `Container.DecodeExact` | src/edge/gcplugin.js:67-98 | decode accepts exactly the layouts of proper file trees (paths unique in any case, no file that is a folder, limits kept, nothing left over) and gives their files |
| `Container.ListedWritable` | src/edge/gcplugin.js:43-49 | files within the limits fit the length fields |
| `ContainerEncode.EncodeLoop` | src/edge/gcplugin.js:37-52 | checks every path and lays the sorted files out |
| `ContainerEncode.SortedIs` | src/edge/gcplugin.js:40 | the order is ascending by path, as bytes are compared, and keeps every file |
| `ContainerEncode.BeforeIsLexical` | src/edge/gcplugin.js:40 | a path comes before another exactly if it is the beginning of it or smaller in the first byte in which they differ |
| `ContainerEncode.RoundTrip` | src/edge/gcplugin.js:37-98 | what encode writes is decoded to the same files in ascending order exactly if they make a proper tree, and is refused otherwise |
| `ContainerEncode.LikePathsRefused` | src/edge/gcplugin.js:37-85 | the files `a` and `A` are encoded, and the package is refused |
| `ContainerEncode.EncodeCanonical` | src/edge/gcplugin.js:37-52 | the package depends on the files and not on the order they are given in |
| `Topics.MatchesIs` | src/edge/topics.js:35-46 | the index loop is level-wise matching, with the rule for topics that start with `$` |
| `Topics.CoversIs` | src/edge/topics.js:49-60 | the index loop is level-wise covering |
| `Topics.CoversExact` | src/edge/topics.js:49-60 | for all valid filters: every topic that matches inner matches outer, if and only if covers says so without a leading wildcard over `$`, or the pair differs on the empty topic only |
| `Topics.CoversExactForPlugins` | src/edge/topics.js:30-60 | for plugin filters covers is inclusion, but for the pair `/#` and `/+/#` |
| `Topics.CoversReflexive` | src/edge/topics.js:49-60 | a filter covers itself |
| `Topics.CoversTransitive` | src/edge/topics.js:49-60 | covering chains |
| `Topics.LeadingWildcardFails` | src/edge/topics.js:49-60 | a covered pair that is no inclusion |
| `Topics.DeniedInclusion` | src/edge/topics.js:49-60 | every topic that matches `#` matches `+/#`, and covers denies it |
| `Topics.DeniedForPlugins` | src/edge/topics.js:30-60 | the same for the plugin filters `/#` and `/+/#` |
| `Topics.Witness` | src/edge/topics.js:49-60 | for a pair that is not covered, a topic that matches inner and not outer |
| `TopicLaws.FilterExact` | src/edge/topics.js:9-20 | a filter is valid exactly if it has 1 to 256 characters, no NUL, CR or LF, `#` only at the end and there alone or behind `/`, and `+` only as a whole level |
| `TopicLaws.PlainFilter` | src/edge/topics.js:35-46 | a filter without wildcards matches itself alone |
| `TopicLaws.Subtree` | src/edge/topics.js:35-46 | `p/#` matches p and everything under it |
| `TopicLaws.OneLevel` | src/edge/topics.js:35-46 | `p/+` matches what lies exactly one level under p |
| `TopicLaws.NoDollarForPlugins` | src/edge/topics.js:30-46 | no plugin filter matches a topic that starts with `$` |
| `Outage.Detector.Observe` | src/inetq/aggregate.js:77-107 | one reading takes the detector from state to state and reports as the specification says |
| `Outage.StateIsMemory` | src/inetq/aggregate.js:65-107 | after any history the detector remembers exactly the down run at its end: start, cause, last reading, and whether it is confirmed |
| `Outage.ChangeNext` | src/inetq/aggregate.js:77-107 | what each reading reports: the outage with the reading that confirms its down run, its new cause with the first reading that finds the router down, and its end with the first up reading, and nothing else |
| `Outage.DetectorIsExact` | src/inetq/aggregate.js:65-107 | for readings in time order the closed outages are exactly the maximal down runs of at least two readings that span the confirmation time and are ended by an up reading, in order, with start, end and cause from the history |
| `Outage.OutagesLastAndDoNotOverlap` | src/inetq/aggregate.js:65-107 | each lasts at least the confirmation time, and no two overlap |
| `Outage.SpansAreOutages` | src/inetq/aggregate.js:65-107 | the spans are exactly the outages of the declarative reading |
| `Buckets.Aggregator.Push` | src/inetq/aggregate.js:33-46 | a measurement goes into the bucket of its time, and the bucket before it is returned when it is complete |
| `Buckets.Aggregator.Lapse` | src/inetq/aggregate.js:49-56 | a bucket is returned when its time is over |
| `Buckets.BucketGrows` | src/inetq/aggregate.js:33-46 | adding to a bucket is taking all its measurements together |
| `Buckets.MeasurementsConserved` | src/inetq/aggregate.js:15-57 | the closed buckets and the open one hold every measurement exactly once, in order |
| `Buckets.BucketTimesRise` | src/inetq/aggregate.js:15-57 | for events in time order the times of closed buckets strictly increase |
| `Buckets.BucketsHoldTheirTime` | src/inetq/aggregate.js:15-57 | in every run each bucket starts at a multiple of its length and holds measurements of its own time alone, and the open one is not over at the last event |
| `Buckets.BucketHolds` | src/inetq/aggregate.js:33-46 | a bucket has each value of each field as often as its measurements do, and the totals of what was sent and received |
| `QualityReport.Buffer.AddSample` | src/inetq/inetq.js:127-132 | a sample joins the buffer, and the oldest one is given up when there are too many; kept in every run: each sample made waits, was acknowledged, was given up after as many newer ones were made as the buffer holds, or was taken out as the twin of a sent one, and just one of these |
| `QualityReport.Buffer.AddOutage` | src/inetq/inetq.js:134-139 | a newer version replaces the older one in its place, a new outage survives, and the oldest one is given up exactly when there are too many; kept in every run: the last version of every outage waits, was acknowledged or was given up, and none was given up before there were more than the buffer holds |
| `QualityReport.Buffer.AddTest` | src/inetq/inetq.js:201-202 | a speed test joins, and the oldest one goes when there are too many |
| `QualityReport.Buffer.Begin` | src/inetq/inetq.js:219-225 | the post holds the oldest samples, all outages and all speed tests |
| `QualityReport.Buffer.Answered` | src/inetq/inetq.js:226-243 | after a failure everything stays; after a success the outages that are still as they were sent, the very speed tests of the post, the samples of the post and their twins go, and all else stays, whatever arrived meanwhile |
| `QualityReport.ChangedInFlight` | src/inetq/inetq.js:134-237 | a post takes the outages along, any changes arrive while it is on its way, and it is acknowledged: an outage then waits exactly if it changed meanwhile into something else than was sent and was not given up, and it waits in its last version |
| `QualityReport.TakesOutTheSent` | src/inetq/inetq.js:232-233 | an acknowledged report takes out exactly the sent samples if and only if no waiting sample has the time of a sent one |
| `QualityReport.TwinLost` | src/inetq/inetq.js:232-233 | two samples of one time: sending the first takes out both |
| `QualityReport.NoTwins` | src/inetq/inetq.js:232-233 | with rising times no sample is lost that way |
| `QualityRun.Quality.Measure` | src/inetq/inetq.js:147-162 | a round gives one measurement to the aggregator and the detector; the bucket it closes becomes a sample and what the detector reports becomes an outage, each giving up the oldest one only for lack of room, and nothing is acknowledged or taken out |
| `QualityRun.Quality.Wait` | src/inetq/inetq.js:168-171 | during a speed test a bucket whose time is over becomes a sample, giving up the oldest one only for lack of room, and nothing else changes |
| `QualityRun.Quality.Tested` | src/inetq/inetq.js:192-206 | a finished speed test is the last in the buffer, the oldest one going only for lack of room, and nothing else changes |
| `QualityRun.Quality.Report` | src/inetq/inetq.js:219-225 | the post holds the oldest samples, all outages and all speed tests, and the buffer keeps them |
| `QualityRun.Quality.Answer` | src/inetq/inetq.js:226-243 | after a failure everything stays; after a success the samples and outage versions of the post are acknowledged and exactly they, with twins of samples and the speed tests of the post, go |
| `QualityRun.SampleTimesRise` | src/inetq/aggregate.js:15-57 | for events in time order the times of all samples made rise strictly |
| `QualityRun.EveryMeasurement` | src/inetq/inetq.js:142-243 | in every run of rounds, posts and answers each measurement is in the open bucket or in exactly one sample, and that sample waits, was acknowledged, was given up, or went as a twin, and just one of these; it is given up only after 2016 newer buckets were closed, and for events in time order none goes as a twin |
| `QualityRun.EveryOutage` | src/inetq/inetq.js:142-243 | in every run with events in time order each outage of the history, in its final form, waits, was acknowledged, or was given up, and that only if there were more than 200 outages |
| `ChatQueue.Slots.Slot` | src/ai/ai.js:336-348 | granted if the slot is free, queued if fewer than two wait, refused otherwise; kept in every run: at most one holder, at most two waiting and only while the slot is held, and who got in and did not leave has got the slot or waits for it, in the order of arrival |
| `ChatQueue.Slots.Release` | src/ai/ai.js:350-353 | the first who waits gets the slot; it becomes free only if nobody waits, and stays free if it was |
| `ChatQueue.Slots.Abort` | src/ai/ai.js:342-345 | a waiting request leaves the queue and the others keep their order; otherwise nothing changes |
| `ChatQueue.Service.Ask` | src/ai/ai.js:368-371 | a call of chat is granted the slot, waits or is refused; the call that has the slot is not disturbed |
| `ChatQueue.Service.Begin` | src/ai/ai.js:372-378 | the call that has the slot runs, alone |
| `ChatQueue.Service.End` | src/ai/ai.js:380-384 | a call that ran gives the slot back, once, however it ended, and the first who waits has it |
| `ChatQueue.Service.Break` | src/ai/ai.js:342-345 | a call that waits leaves; one that has the slot keeps it until it ends |
| `ChatQueue.EveryCall` | src/ai/ai.js:336-385 | in every run the calls that got in and did not leave are, in the order of arrival, those that ran and gave the slot back, at most one that has it, and at most two that wait, and nobody waits while it is free |

## Left out

- Sockets, HTTP, WebSocket relay, mDNS and SSDP, WireGuard, keepalived, iptables, child processes, ffmpeg and poppler: no semantics to see.
- Files, persistence and crash recovery: a store is its memory, and a successful post or download is an event.
- SHA-256, HMAC, Ed25519, TLS pinning and gzip: opaque; the container is modelled inside its compression.
- UTF-8 decoding and encoding of names and texts: strings are their bytes, and lower-casing changes ASCII letters only.
- The slow path of `cleanDomain` for names that are not ASCII: a parameter of the list parser.
- `initInfo`, `codecsString` and `timescaleOf` of the MP4 code, `PatternSet` of the DNS lists, `toType` and the page headers of the printing code, `attrsOf` and the requests of the IPP client: they would only add easier members.
- Mp4Rebase.TfdtsOf: says nothing about the values of a segment with a tfhd or tfdt too short for its fields, where the program reads neighbouring bytes or throws.
- Mp4Rebase.Rebase: says nothing about such a segment.
- HashLaws.OneByteApart: says that such names are told apart and not which number a name gets.
- HashList.HashBuilder.AddHash: requires a buffer of at least one place, because doubling a capacity of 0 does not grow it; the entry limit throws before any add in that case.
- HashList.MatchesName: requires that the hashes involved do not collide; `MatchHashes` needs no such condition.
- ListNames.LoadAndAsk: requires that the hashes involved do not collide.
- ListStream.ParseListStream: the entries are gathered and then handed to the three builders, and not one by one while reading.
- DnsResponse.ResponseRoundTrip: names have no empty labels, which `encodeName` would leave out, and the data of a CNAME answer is a name without pointers, as `encodeName` writes it.
- DnsAge.AdaptedParses: the condition on names is sufficient and not necessary, since a lowered TTL can leave the bytes of a name as they were.
- DnsAdapt.AdaptResponse: requires TTL places that lie apart and behind the question, which `ParsedFront` gives for every parsed response.
- ResponseCache.Cache.Set: takes the parsed form of the very response it stores, as its one caller does.
- ResponseCache.AnswerFrom: the TTL statement is for clocks that do not run backwards; without that only the bytes outside id, question and TTLs are said to stay.
- BlobStore.Store.MakeRoom: the awaits between the removals are not modelled; nothing else changes the store meanwhile.
- FetchPass.Pass: the wanted list has each blob once, as the client returns it, with whole numbers as priorities; changes of the store during a download are not modelled.
- CacheReport.RunInSync: is about runs that leave the store alone during full reports; `RunWrongExactly` is about all runs, with one report at a time.
- The counters of the cache report, and its times.
- PageGeometry.LayoutFits: uses real numbers in place of floating point; the fit depends on the clamps only.
- Averages and percentiles of a closed bucket: the bucket holds the values they are taken from.
- Restarts of the quality feature, which load the buffer from a file and may close a bucket twice. The repetition of the report while samples are left is a sequence of its steps.
- Ipp.MessageRoundTrip: values have the type that their tag asks for; conversions of other JavaScript values to strings are not modelled, nor are names that JavaScript objects inherit.
- Liveness of the chat queue, and what an abort does to a call that runs.
- Config normalisers, the policy chain, telemetry, feature manager, timer loop, REST clients, views, and the print job and camera event lifecycles: plumbing.
