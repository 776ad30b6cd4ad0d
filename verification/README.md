# Verified model of xray-vless-ws-go

This project models the parts of the repository whose correctness can be stated exactly, and proves
those statements. The largest part is the QR encoder of the log server's web page; the others are the
self-update steps, the tunnel supervisor, the Cloudflare provisioning, the Worker bridge and the
vless:// links.

Run `dafny verify dfyconfig.toml`.

**QR encoder** (`web/logserver/static/qr.js`). GF(2) and GF(256) arithmetic (`Gf2`, `Gf256`, `Primitive`,
`Tables`), BCH words (`Bch`), polynomials and Reed-Solomon codes (`Polynomials`,
`GeneratorCoefficients`, `ReedSolomon`, `CheckUnique`), the bit stream (`Bits`, `BitBuffer`,
`EightBitByte`, `Segments`, `Padding`, `DataStream`), blocks and interleaving (`BlockCounts`, `Blocks`,
`Interleaving`, `Codewords`), the module matrix (`Layout`, `PatternSteps`, `PatternPictures`, `Painting`,
`Capacity`, `ZigZag`, `ZigZagOrder`, `MaskPictures`, `Masks`, `DataPlacement`, `Mapping`), mask choice
(`PenaltyRules`, `Penalty`), a decoder written from ISO/IEC 18004 that looks only at the matrix (`Decoder`),
and the QR code object with the end-to-end theorem (`QrCode`). Tables and patterns of the program are compared
with the standard's own: mask pictures, the two block tables, the spacing rule of alignment patterns. Code that throws
returns a `Result`. A coefficient slot that the program leaves unset is -1: it counts as zero in
arithmetic, and it ends the stripping of leading zeros, as an undefined array element does.

**Self-update** (`SelfUpdate`). A directory of names pointing to files. Every system call can fail, and
the process can die before any call; the contracts hold at every such point.

**Supervisor** (`Supervisor`, `SupervisorCalls`, `Hostname`). A run is given by the events its `select` statements receive;
the output is the sequence of callbacks, launches, signals and waits.

**Provisioning** (`CfDeploy`). Remote lists of tunnels, namespaces and records. Any request can fail, a
writing one also after it took effect.

**Worker** (`Worker`, `WorkerRoutes`). RAM over an optional KV store, and the path rewriting.

**Links** (`Text`, `SniList`, `Links`). Quoting, the SNI list, the link printer and the link parser.

Where code and comments or expectations disagree, the model follows the code:

- `web/logserver/static/qr.js:222-227`: units are encoded one by one, so the four-byte branch never
  applies and a surrogate pair becomes six bytes, and the strict comparison encodes the unit 0x800 with
  two bytes; `AgreesWithUtf8` shows that nothing else differs from UTF-8.
- `internal/selfupdate/rollback.go:13-18` says a rollback consumes `.prev`. When `.prev` is a second link
  to the running binary, which an update that failed after linking leaves behind, renaming does nothing,
  `.prev` stays and a second rollback succeeds (`RollbackTwice`, `FailedUpdateThenRollbackTwice`).
- `internal/tunnel/supervisor.go:125-129` says the run never returns while the child lives. It does when
  the cancellation shows up as a closed poll channel, or coincides with a not-ready restart: then the
  child is signalled and not waited for. `Run` states the exact cases, `ClosedPollsLeaveChild` and
  `StaleChildLeft` give the runs.
- `internal/tunnel/hostname.go:23-25` speaks of the line right after the banner; any later line counts
  until one is found (`ReportsFollowBannerIff`, `SampleOutput`).
- `internal/cfdeploy/kv.go:20-24`: a duplicate namespace arises exactly when the title stands beyond the
  page that is read.
- `internal/cfdeploy/assets/worker.js:161`: the origin is never empty there, only the path decides.
- `internal/cfdeploy/assets/worker.js:69-95`: after a restart an accepted `/setapi` call without a
  transport, made before any request came in, fills RAM, so the stored transport is not loaded and the
  default is reported until a call carries a transport or a later restart is followed by a request first.
  `ReportedTransportIff` states exactly when. Routing does not depend on the transport.

## Model

| member | source | states |
|---|---|---|
| Bch.CodewordUnique | web/logserver/static/qr.js:263-276 | a word divisible by the BCH generator over GF(2) with the data in its top bits is unique, so the two BCH routines are determined by their contracts |
| Bch.BchDigit | web/logserver/static/qr.js:277-284 | the bit length, for a number of any width |
| Bch.BchCheckBits | web/logserver/static/qr.js:264-267 | the division loop ends for data of any width and leaves the check bits that complete a codeword |
| Bch.BchTypeInfo | web/logserver/static/qr.js:263-269 | without the fixed mask, the format bits are a codeword of the (15,5) code for the data (section 7.9 of ISO/IEC 18004) |
| Bch.BchTypeNumber | web/logserver/static/qr.js:270-276 | the version bits are a codeword of the (18,6) code for the version (section 7.10) |
| Primitive.OrderIs255 | web/logserver/static/qr.js:45-47 | alpha generates GF(256) modulo 0x11D: none of its powers 1 to 254 is one |
| Primitive.EveryNonZeroIsAPower | web/logserver/static/qr.js:45-47 | every non-zero byte is a power of alpha, so the log table has no hole |
| Gf256.MulAssociates | web/logserver/static/qr.js:64 | carry-less multiplication modulo 0x11D is associative; with the laws beside it, bytes form a field |
| Primitive.MulNonZero | web/logserver/static/qr.js:64 | no two non-zero bytes multiply to zero |
| Tables.ExpRecurrence | web/logserver/static/qr.js:46 | the four-term recurrence that fills the table is multiplication by alpha, eight times |
| Tables.ProductByLogs | web/logserver/static/qr.js:64 | adding logarithms multiplies field elements |
| Tables.QRMath.Glog | web/logserver/static/qr.js:32-35 | the discrete logarithm; it throws for zero and for nothing else |
| Tables.QRMath.Gexp | web/logserver/static/qr.js:36-40 | the power of alpha for every integer exponent, negative ones included |
| Polynomials.EvalProduct | web/logserver/static/qr.js:60-68 | evaluating a product of polynomials multiplies the values |
| Polynomials.GeneratorRoots | web/logserver/static/qr.js:301-307 | a power of alpha is a root of the degree-r generator exactly when its exponent is below r (exponents below 255) |
| GeneratorCoefficients.CoefficientRatio | web/logserver/static/qr.js:301-307 | neighbouring coefficients of the generator satisfy the q-binomial ratio |
| GeneratorCoefficients.CoefficientNonZero | web/logserver/static/qr.js:301-307 | below degree 255 no coefficient of the generator is zero |
| GeneratorCoefficients.FullGeneratorHasZero | web/logserver/static/qr.js:301-307 | at degree 255 a coefficient is zero, so the bound is exact |
| ReedSolomon.NewPolynomial | web/logserver/static/qr.js:49-55 | leading zeros are stripped, an unset slot ends the stripping, and the shift is left unset |
| ReedSolomon.Multiply | web/logserver/static/qr.js:60-68 | the product polynomial; it throws exactly when a factor has a zero coefficient |
| ReedSolomon.ErrorCorrectionPolynomial | web/logserver/static/qr.js:301-307 | the generator with the prescribed roots; it succeeds exactly for at most 255 check symbols |
| ReedSolomon.Mod | web/logserver/static/qr.js:69-76 | the recursion ends, the result is shorter than the divisor and agrees with the dividend on every root of the divisor |
| ReedSolomon.CheckCodewords | web/logserver/static/qr.js:598-607 | a block's data followed by its check codewords vanishes at alpha^0 to alpha^(n-1), also when the remainder is short and has to be right-aligned (section 7.5.2) |
| CheckUnique.ManyRootsMeanZero | web/logserver/static/qr.js:598-607 | a polynomial with at most n coefficients and n of the roots is zero |
| CheckUnique.CheckSymbolsUnique | web/logserver/static/qr.js:598-607 | no other check codewords complete the block |
| BitBuffer.QRBitBuffer.PutBit | web/logserver/static/qr.js:207-212 | one bit is appended; the byte array stays the packing of all bits written |
| BitBuffer.QRBitBuffer.Put | web/logserver/static/qr.js:201-205 | the low bits of a number are appended, most significant first |
| Bits.NumBitsAt | web/logserver/static/qr.js:201-205 | bit i of the written form is the i-th from the top of its field |
| Bits.FromNumBits | web/logserver/static/qr.js:201-205 | a number that fits its field is read back from it |
| EightBitByte.NewEightBitByte | web/logserver/static/qr.js:215-240 | the bytes kept for a text are its encoding |
| EightBitByte.TextRoundTrip | web/logserver/static/qr.js:219-238 | the encoding of every sequence of 16-bit units decodes to that sequence |
| EightBitByte.AgreesWithUtf8 | web/logserver/static/qr.js:222-236 | on well-formed UTF-16 text the encoding is UTF-8 (section 3 of RFC 3629) exactly when the text holds no surrogate pair and no unit 0x800 |
| EightBitByte.QR8bitByte.Write | web/logserver/static/qr.js:244-248 | all payload bits go to the buffer, in order |
| Blocks.CodewordCountIs | web/logserver/static/qr.js:84-165 | the standard's codeword count of each version is the number of data modules divided by eight, rounded down |
| Blocks.TableFits | web/logserver/static/qr.js:84-165 | each of the 160 table rows has as many blocks, and in each block as many check codewords, as the standard's tables say for its version and level (Table 9 of ISO/IEC 18004), and sums to the codeword count of its version |
| Blocks.TableIsStandard | web/logserver/static/qr.js:84-165 | the rows, expanded, are the blocks that follow from those tables: the symbol's codewords dealt out as evenly as possible |
| Blocks.BlocksShape | web/logserver/static/qr.js:84-165 | the number of blocks, the check codewords of each, shorter blocks first and longer by one at most |
| Blocks.BlocksFit | web/logserver/static/qr.js:167-189 | the expanded block list has those sums |
| Blocks.GetRSBlocks | web/logserver/static/qr.js:167-189 | the standard's block list for every version 1-40 and level; anything else is the bad-block error |
| Interleaving.WriteRounds | web/logserver/static/qr.js:613-622 | the two nested loops write the interleaving and move the index by its length |
| Interleaving.PositionsOrdered | web/logserver/static/qr.js:613-622 | codewords stand in the order of their index first and their block second, and no two share an output slot |
| Interleaving.InterleavedAt | web/logserver/static/qr.js:613-622 | codeword i of block r lands in the slot given by counting, for blocks of any sizes |
| Interleaving.DeinterleaveInverts | web/logserver/static/qr.js:613-622 | every slot is used, the length is the sum of the block lengths, and de-interleaving returns every block (section 7.6) |
| Segments.FinalBitsParse | web/logserver/static/qr.js:564-582 | the padded stream has exactly the capacity and parses back to all payloads (sections 7.4.5, 7.4.9, 7.4.10) |
| Segments.FittingLengths | web/logserver/static/qr.js:567-574 | whatever fits a symbol also fits the length field: no length is truncated |
| Padding.PaddedStream | web/logserver/static/qr.js:575-582 | after the segments come zero bits up to the byte boundary after the terminator, then 11101100 and 00010001 in turn (sections 7.4.9 and 7.4.10) |
| DataStream.FilledBuffer | web/logserver/static/qr.js:563-582 | segments, terminator, byte alignment and alternating 0xEC/0x11 padding, or the overflow error exactly when the segments exceed the capacity |
| DataStream.CreateData | web/logserver/static/qr.js:561-584 | codewords of that stream, or the error that applies |
| Codewords.CreateBytes | web/logserver/static/qr.js:586-624 | as many codewords as the blocks hold in total: the interleaved data and check parts of Reed-Solomon words over the buffer |
| Codewords.DecodeCodewords | web/logserver/static/qr.js:586-624 | a reader that de-interleaves, joins and parses gets what parsing the data bytes gives, ignoring what follows |
| DataStream.CreatedDataDecodes | web/logserver/static/qr.js:561-624 | the codewords, with any remainder after them, decode to the payloads |
| Layout.TableRegular | web/logserver/static/qr.js:252-259 | the position table is regular: the first centre 6, the last seven from the edge, all even and at least 12 apart, as many as the version calls for |
| PatternSteps.CentreAt | web/logserver/static/qr.js:252-259 | every centre of every version is where the rule of equal steps, counted back from the far edge, puts it (Annex E) |
| PatternPictures.FinderDrawn | web/logserver/static/qr.js:441-453 | every finder with its separator is the drawn one |
| PatternPictures.AlignmentDrawn | web/logserver/static/qr.js:484-492 | every alignment pattern is the drawn one |
| Layout.AlignmentMatchesTiming | web/logserver/static/qr.js:467-495 | on row and column 6 alignment modules have the colour of the timing pattern |
| Layout.AlignmentAvoidsOthers | web/logserver/static/qr.js:477-525 | alignment patterns stay clear of finders, format and version information |
| Layout.OthersDisjoint | web/logserver/static/qr.js:441-525 | no two of finders, timing, format and version information share a module, in any version |
| Layout.ColumnSixIsFull | web/logserver/static/qr.js:532 | column 6, which the data fill skips, has no data module |
| Painting.CentreInFinder | web/logserver/static/qr.js:483 | the centres skipped because a module is already set are exactly those in the three finders |
| Painting.SetupPositionProbePattern | web/logserver/static/qr.js:441-453 | a finder with its separator, clipped at the edge; nothing else changes |
| Painting.SetupPositionAdjustPattern | web/logserver/static/qr.js:477-495 | all alignment patterns; nothing else changes |
| Painting.SetupTimingPattern | web/logserver/static/qr.js:467-476 | timing modules where nothing was set; nothing else changes |
| Painting.SetupTypeInfo | web/logserver/static/qr.js:504-525 | both copies of the format word and the dark module; nothing else changes |
| Painting.SetupTypeNumber | web/logserver/static/qr.js:496-503 | both copies of the version word; nothing else changes |
| QrCode.StepsAgree | web/logserver/static/qr.js:431-437 | no setup step overwrites another with a different value |
| QrCode.DrawPatterns | web/logserver/static/qr.js:431-437 | after the setup steps every function module has its value and every other module is unset |
| Capacity.CoverSize | web/logserver/static/qr.js:441-525 | the function modules of a version number no more than the standard's count |
| ZigZag.EnoughModules | web/logserver/static/qr.js:526-558 | every version has at least as many data modules as the standard says, so all codewords have room |
| ZigZag.VisitOfCell | web/logserver/static/qr.js:531-557 | the fill comes past every module outside column 6 |
| ZigZag.CellOfVisit | web/logserver/static/qr.js:531-557 | and it does so once |
| ZigZagOrder.RankCounts | web/logserver/static/qr.js:526-558 | the bit a data module takes is numbered by the data modules before it: strips of two columns from the right, in turn upwards and downwards, right before left (section 7.7.3) |
| Masks.MaskIsPicture | web/logserver/static/qr.js:286-299 | each mask inverts exactly the modules that its picture of 12 by 12 modules marks, repeated over the symbol (section 7.8.2) |
| Mapping.MapData | web/logserver/static/qr.js:526-558 | function modules keep their value, every other module gets the bit of its rank, inverted where the picture of the mask says so, none stays unset (section 7.7.3) |
| DataPlacement.ReadBack | web/logserver/static/qr.js:526-558 | reading the modules in that order, with the masks taken from their pictures, returns every codeword |
| Decoder.ReaderConstants | web/logserver/static/qr.js:260-262 | the generators and the mask of the format and version words are the standard's, by their powers (sections 7.9.2 and 7.10) |
| Decoder.DarkModule | web/logserver/static/qr.js:524 | the module at row 4 * version + 9, column 8 is dark |
| Decoder.TestShown | web/logserver/static/qr.js:454-466 | a test symbol is light in the format and version information and equals the finished symbol elsewhere |
| Decoder.FormatReadBack | web/logserver/static/qr.js:504-525 | the format word is read from either copy |
| Decoder.VersionReadBack | web/logserver/static/qr.js:496-503 | the version word is read back |
| Decoder.SymbolDecodes | web/logserver/static/qr.js:424-440 | end to end: for every version, level, mask and data that fits, a decoder that looks only at the module matrix, with its own masks, block tables, generators and field widths, returns exactly the payloads |
| Penalty.GetLostPoint | web/logserver/static/qr.js:337-388 | the penalty in terms of the numbers of positions: crowded modules, squares of one colour, stretches 1011101 along rows and along columns, and the difference between dark and light modules |
| PenaltyRules.PenaltyTransposed | web/logserver/static/qr.js:337-388 | exchanging rows and columns leaves the penalty unchanged |
| Penalty.Deviation | web/logserver/static/qr.js:386-387 | the last term is the difference between the numbers of dark and light modules in percent of all modules, so it is never negative |
| QrCode.QRCode.AddData | web/logserver/static/qr.js:392-396 | one payload more, and no stale cache |
| QrCode.QRCode.MakeImpl | web/logserver/static/qr.js:424-440 | succeeds exactly when the data fits the version, and otherwise reports which of the three errors applies; the matrix then shows the complete symbol; the cache always belongs to the current data |
| QrCode.QRCode.GetBestMaskPattern | web/logserver/static/qr.js:454-466 | the first mask with the least penalty of the test symbols |
| QrCode.QRCode.SelectVersion | web/logserver/static/qr.js:405-421 | the least version below 40 that fits, otherwise 40 |
| QrCode.QRCode.Make | web/logserver/static/qr.js:404-423 | a version once fixed, by the caller or by an earlier make, is kept; the finished matrix, with the best mask, decodes to the payloads of the data list |
| QrCode.LeastVersionFits | web/logserver/static/qr.js:405-421 | the chosen version fits whenever any version does |
| QrCode.EncodeSymbol | web/logserver/static/qr.js:629-640 | from text to symbol: succeeds exactly for texts that fit some version, the symbol decodes to the text, and every other text gives the overflow error |
| SelfUpdate.ExpectedHash | internal/selfupdate/verify.go:64-80 | the lower-cased digest of the first two-field line that lists the asset; none exactly when no line does |
| SelfUpdate.ListsIff | internal/selfupdate/verify.go:70-78 | a line lists an asset by its name, alone or after the mark of a binary file |
| SelfUpdate.LowerAt | internal/selfupdate/verify.go:77 | lower-casing changes upper-case letters only, each to the letter 32 places on |
| SelfUpdate.DownloadAndVerify | internal/selfupdate/verify.go:23-41 | success means the bytes on disk match the published checksum, and when no call fails it means exactly that the release is intact; only the temporary file is written |
| SelfUpdate.AtomicReplace | internal/selfupdate/swap.go:26-47 | an error leaves the old file in place and touches only .prev; success leaves .prev naming the old file; which steps take effect for every sequence of failing calls; a stop between link and rename leaves .prev linked to the running binary; the temporary file stays only if its removal failed |
| SelfUpdate.Run | internal/selfupdate/run.go:26-107 | crash safety: wherever calls fail or the process dies, the executable is the old file or a verified one, and then .prev names the old file; no temporary file is left by a process that lives unless its removal failed; without failing calls an update fails only for want of an intact release |
| SelfUpdate.Rollback | internal/selfupdate/rollback.go:19-62 | the preserved file is put in place; .prev survives exactly when it was a second link to the running binary, where renaming does nothing |
| SelfUpdate.UpdateThenRollbackTwice | internal/selfupdate/rollback.go:13-18 | whenever swap and rollback took effect, also if a restart of the service failed, the old bytes are back and a second rollback fails; with an intact release and no failing call the first two succeed |
| SelfUpdate.RollbackTwice | internal/selfupdate/rollback.go:13-48 | without failing calls a second rollback in a row succeeds exactly if .prev was a second link to the running binary, which then keeps both names |
| SelfUpdate.FailedUpdateThenRollbackTwice | internal/selfupdate/swap.go:38-40 | such a state arises: an update that fails at chmod, then two rollbacks that succeed and change nothing |
| SelfUpdate.Session | internal/selfupdate/run.go:26-107 | any sequence of updates and rollbacks with arbitrary failures refines a two-slot history |
| SelfUpdate.HistoryTrusted | internal/selfupdate/verify.go:33-41 | everything ever installed or preserved was there at the start or passed a checksum |
| Supervisor.Watch | internal/tunnel/supervisor.go:117-180 | the watch ends at the first event that calls for it, a not-ready restart exactly when not-ready polls without a ready one between span more than 15 s; the calls are those of the events taken, in order |
| SupervisorCalls.ReadinessReported | internal/tunnel/supervisor.go:140-162 | for named and quick tunnels alike the readiness reported, in order, is that of the polls that got an answer, with one not-ready for an exit or a closed poll channel and nothing for failed polls or the cancellation |
| SupervisorCalls.WatchActions | internal/tunnel/supervisor.go:123-147 | a watch leaves its child alone until it ends: by receiving its exit, or by signalling it, killing it if it is late, and receiving its exit |
| Supervisor.WindowStep | internal/tunnel/supervisor.go:156-177 | the remembered start of the window decides staleness for every run |
| Supervisor.EndIsUnique | internal/tunnel/supervisor.go:121-179 | the events alone determine how many are taken and why the watch ends |
| Supervisor.LaunchThenWatch | internal/tunnel/supervisor.go:83-99 | a launch and its watch keep the launch discipline and leave the child live exactly in the two cases named |
| Supervisor.ErrorsIgnored | internal/tunnel/supervisor.go:156-159 | removing the error polls before an event changes no verdict |
| Supervisor.RestartReportsNotReady | internal/tunnel/supervisor.go:40-46 | whenever the watch returns for a restart, the last readiness reported is not-ready |
| Supervisor.HostnameOnce | internal/tunnel/supervisor.go:163-169 | a named launch reports its hostname once if a ready poll was handled, otherwise never |
| Supervisor.HostnameAfterReady | internal/tunnel/supervisor.go:160-169 | the hostname follows the report of a ready poll |
| Supervisor.CancelledWatchEndsWithExit | internal/tunnel/supervisor.go:123-138 | returning for cancellation means the exit was received |
| Supervisor.ExitReceived | internal/tunnel/supervisor.go:117-180 | a returned watch leaves the child possibly alive exactly when it ended by the closed poll channel or for not being ready |
| Supervisor.NextBackoffIsNextDelay | internal/tunnel/supervisor.go:210-216 | doubling with a cap gives min(2*2^n, 60) s for the n-th wait |
| Supervisor.TotalDelay | internal/tunnel/supervisor.go:65-112 | the first n waits take 2^(n+1)-2 s for n up to 5 and 62+60(n-5) s beyond |
| Supervisor.Run | internal/tunnel/supervisor.go:65-112 | the calls of every run (RunOk): every launch finds all earlier children exited or killed and comes after the scheduled waits, which are never reset; when the run returns, the exact cases in which a child was only signalled |
| Supervisor.WatchedRound | internal/tunnel/supervisor.go:83-112 | a round launches its child, watches it, and ends with a signal if the run was cancelled by then, otherwise with a kill and the scheduled wait |
| Supervisor.ClosedPollsLeaveChild | internal/tunnel/supervisor.go:149-154 | a run whose cancellation shows up as the closed poll channel ends with a child that was only signalled |
| Supervisor.StaleChildLeft | internal/tunnel/supervisor.go:99-102 | so does a run cancelled while a not-ready restart is due |
| Hostname.FindURLLeftmost | internal/tunnel/hostname.go:7 | the greedy search finds the pattern exactly when it occurs anywhere, at its first occurrence |
| Hostname.HostnameParser.Feed | internal/tunnel/hostname.go:40-59 | a hostname is returned exactly for a non-banner line with a URL while a banner is pending |
| Hostname.StreamLines | internal/tunnel/supervisor.go:185-199 | the lines that report a hostname over a whole output, and none for named tunnels |
| Hostname.CodeRemoved | internal/tunnel/hostname.go:6-18 | a colour code is taken out wherever it stands |
| Hostname.OtherKept | internal/tunnel/hostname.go:6-18 | a character at which no colour code starts is kept |
| Hostname.PlainTextKept | internal/tunnel/hostname.go:6-18 | text without an escape character passes the colour stripping unchanged |
| Hostname.ReportsFollowBannerIff | internal/tunnel/hostname.go:20-59 | every report comes from the line right after a banner exactly if no banner is followed by other lines and then, before the next banner, by a URL |
| Hostname.SampleOutput | internal/tunnel/hostname.go:20-59 | output with a blank line between banner and URL reports the URL |
| Hostname.OneReportPerBanner | internal/tunnel/hostname.go:52-55 | between two reports there is a fresh banner |
| CfDeploy.EnsureKVNamespace | internal/cfdeploy/kv.go:25-54 | reuse without a write if the title is on the page read; otherwise one more namespace with the title |
| CfDeploy.EnsureTunnel | internal/cfdeploy/tunnel.go:86-116 | an existing tunnel is never duplicated, the returned id is the one a listing finds |
| CfDeploy.EnsureDNSRoute | internal/cfdeploy/tunnel.go:174-209 | success means the host's first CNAME is proxied to the tunnel; other hosts keep their records; a correct route is not written |
| CfDeploy.RouteIsExclusive | internal/cfdeploy/tunnel.go:174-209 | the content of the record names one tunnel: a host routed to it is routed to no other |
| CfDeploy.AppliesIff | internal/cfdeploy/tunnel.go:40-54 | the guards, with a host below the domain written as something followed by a dot and the domain |
| CfDeploy.PutRecordListing | internal/cfdeploy/tunnel.go:200-206 | replacing the first record of a host leaves the listing of every other host alone |
| CfDeploy.EnsureNamedTunnel | internal/cfdeploy/tunnel.go:39-77 | nothing is touched when a guard says no; a token is returned only for the tunnel the host is routed to, and always if no request fails and zone and token exist; a routed host causes no writes |
| CfDeploy.Ensure | internal/cfdeploy/deploy.go:43-87 | the results of full, partial and failed runs; DNS writes never name the Worker's hostname; a settled state causes no create and no DNS write |
| CfDeploy.Converge | internal/cfdeploy/deploy.go:43-87 | after any number of runs failing anywhere, the next run succeeds if none of its requests fails and zone and token exist, and success puts everything in place, without duplicates while listings are complete |
| Worker.CollapseKeepsSegments | internal/cfdeploy/assets/worker.js:205 | collapsing slashes keeps the sequence of path segments |
| Worker.RouteForwards | internal/cfdeploy/assets/worker.js:156-224 | a request is forwarded exactly when its path is the entry or below it; the forwarded path starts with a slash and has no repeated one |
| WorkerRoutes.RouteInside | internal/cfdeploy/assets/worker.js:156-215 | under the entry every request goes to the stored host, with https:// before it unless it names a scheme, to exactly the path made of the stored path's segments and those after the entry; at the entry itself a WebSocket request goes to the stored path alone |
| WorkerRoutes.RouteOutside | internal/cfdeploy/assets/worker.js:165-226 | 404 exactly outside the entry, which is the stored entry, or else the stored path, with a leading slash and without a slash at its end |
| WorkerRoutes.RouteWithoutPath | internal/cfdeploy/assets/worker.js:161-163 | 503 exactly without a stored path |
| WorkerRoutes.CleanPath | internal/cfdeploy/assets/worker.js:181 | a rooted path without repeated slashes is determined by its segments and whether a slash ends it |
| WorkerRoutes.SegmentsSplit | internal/cfdeploy/assets/worker.js:205 | the segments are the non-empty pieces between slashes |
| WorkerRoutes.ApiRefuses | internal/cfdeploy/assets/worker.js:26-101 | which configuration calls get 405, 403 and 400, and that they store no configuration |
| WorkerRoutes.ApiAccepts | internal/cfdeploy/assets/worker.js:65-95 | what an accepted call stores and is told |
| WorkerRoutes.SubscriptionStored | internal/cfdeploy/assets/worker.js:41-56 | which calls store the subscription |
| Worker.RewriteSegments | internal/cfdeploy/assets/worker.js:203-206 | the forwarded path is the target's segments followed by those after the entry |
| Worker.InjectiveIff | internal/cfdeploy/assets/worker.js:170-206 | exactly when no two clean paths are forwarded to one path |
| Worker.TargetEndsWithSlash | internal/cfdeploy/assets/worker.js:158-172 | which stored paths make the normalised target end in a slash |
| Worker.Isolate.SetApiCall | internal/cfdeploy/assets/worker.js:26-101 | the whole response to every call: status, stored configuration and the transport in RAM; the configuration is stored exactly by accepted calls, the subscription also by calls without host or path |
| Worker.Isolate.ServeSub | internal/cfdeploy/assets/worker.js:106-136 | the subscription served is the last one stored |
| Worker.Isolate.HandleProxy | internal/cfdeploy/assets/worker.js:139-224 | requests are routed by the last configuration stored, in the way RouteInside, RouteOutside and RouteWithoutPath state |
| Worker.Session | internal/cfdeploy/assets/worker.js:20-226 | over any sequence of calls, requests and restarts every response is the one the earlier operations call for: routing, subscription and saved configuration by what was stored last, the reported transport by what RAM holds |
| Worker.ReportedTransportIff | internal/cfdeploy/assets/worker.js:69-95 | an accepted call reports the transport stored last exactly unless, since the last restart, a call without a transport was accepted before any request came in and none with one, and the stored one is not the default |
| Worker.TransportForgotten | internal/cfdeploy/assets/worker.js:69-95 | such a run: store a transport, restart, store a configuration without one |
| Worker.RestartsInvisible | internal/cfdeploy/assets/worker.js:139-154 | with a KV store, requests and subscriptions are answered the same in a run and in the run without its restarts |
| Links.SafeQuote | internal/linkgen/quote.go:13-27 | the loop computes the quotation of every byte string |
| Links.DecodeQuote | internal/linkgen/quote.go:13-27 | percent-decoding a quotation, also with text after it, gives the bytes back |
| Links.QuoteWellQuoted | internal/linkgen/quote.go:29-46 | a quotation consists of unreserved characters and upper-case escapes only (sections 2.1 and 2.3 of RFC 3986) |
| Links.QuoteFixes | internal/linkgen/quote.go:29-41 | exactly the unreserved strings are left as they are |
| Links.BuildLinks | internal/linkgen/links.go:17-55 | two links an entry, in order, for the configured host unless it is the default |
| Links.LinkRoundTrip | web/logserver/static/app.js:159-199 | a printed link reads back as printed for every path, remark and mode; the empty security becomes none; a remark that is not well-formed text loses the link |
| Links.PrintedHost | internal/linkgen/links.go:20-31 | the link names the tunnel's host exactly while the configured one is empty or the default, and the transport ws for everything but xhttp |
| Links.ExtrasRead | internal/linkgen/links.go:28-39 | xhttp links carry the mode, auto by default, and h2 over TLS; the others ask for 2048 bytes of early data |
| Links.AddressRecoveredIff | web/logserver/static/app.js:174-185 | the address is read back exactly when it holds neither a colon nor a question mark |
| Links.PlainLinkHasNoSni | web/logserver/static/app.js:192 | the plain link has no SNI unless the mode carries further parameters |
| SniList.ParseSNIList | internal/config/sni.go:20-57 | the loop computes the list that the recursive reading defines, or the first error |
| SniList.ListIsGood | internal/config/sni.go:20-57 | accepted lists are non-empty; every SNI is non-empty, trimmed, free of commas and hashes, every remark non-empty |
| SniList.UnnamedEntry | internal/config/sni.go:36-49 | an item without a remark, or with a blank one, is called Tunnel and its position in the list, counted from one in decimal |
| SniList.EntryAtPosition | internal/config/sni.go:28-33 | blank parts make no entry but count as positions |
| SniList.TrimSplits | internal/config/sni.go:21 | trimming takes off white space at both ends and nothing else |
| SniList.ListRoundTrip | internal/config/sni.go:20-57 | a good list written out parses back to itself |

## Left out

- Drawing on a canvas, the page and its other scripts, the UMD wrapper, and option handling of
  `renderCanvas`: only the call sequence that makes the symbol is modelled.
- The numeric, alphanumeric and kanji modes: the encoder never creates such segments.
- `QRBitBuffer.get`, which nothing calls.
- 32-bit overflow of JavaScript shifts for BCH data of 2^21 (format) or 2^19 (version) and above; format
  data is below 64 and versions are at most 40.
- Penalty.GetLostPoint: the dark-module ratio is a real number; rounding of floating-point values is not modelled.
- Error correction by the decoder: it reads undamaged symbols.
- SelfUpdate.Run: SHA-256 is a parameter, fetching is success or failure, and file permissions, symbolic
  links, other processes writing to the directory and Windows are not modelled.
- Supervisor.Watch: which of several ready channels a `select` takes is part of the given events; poll
  times never decrease; log lines are not modelled.
- Hostname.StreamLines: lines longer than the scanner's buffer, which stop the scan, are not modelled.
- CfDeploy.EnsureTunnel: the listing filtered by name is taken to be complete; more than one page of
  tunnels with one name is not modelled.
- CfDeploy.Ensure: resolving the account is success or failure, rendering the script always succeeds, and
  the zone's DNS list holds CNAME records only.
- Worker.Session: one isolate handles requests one after another, KV calls succeed, JSON values are
  strings, and the URL parser's own normalisation of dot segments and hosts is not modelled.
- Worker.Isolate.ServeSub: base64 with its UTF-8 steps is a pair of parameters.
- Links.LinkRoundTrip: the remark is compared before cosmetic clean-up, which code points are
  well-formed text is a parameter, and form decoding stops at bytes.
- SniList.ParseSNIList: white space is ASCII white space.
- Session authentication, `.env` loading, the CI watcher, the engine configuration, downloading and
  launching cloudflared, `Ring` and `StatusStore`: shallow branching or plumbing.
