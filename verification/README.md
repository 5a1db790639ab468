# A verified model of the OpenSSL command-line applications' core logic

This project models, in Dafny, the parts of the `openssl` command-line programs that keep state or transform
data in non-trivial ways, and proves what those parts promise.

* **The CA database** (`ca`): the tab-separated text format, loading and its checks, the serial number and name
  indexes, issuing, revoking, ageing, batches, and whole histories of runs. One module per layer: `TextDb`,
  `HexSerial`, `Revocation`, `CaTable` (values), `CaDatabase` (the mutable database and the program steps), `CaRuns`
  (what every run keeps), `CaNumbers` (sequential numbering), `CaEffects` (what each run does), `Commit` (the
  rename sequences and their crash states), `Policy` (the subject of a new certificate).
* **Its two readers**: CRL generation and the OCSP responder (`CrlOcsp`, on `Agreement`).
* **Password hashes** (`passwd`): the SHA-256, SHA-512 and MD5 schemes over an arbitrary hash function, their output
  encodings and their settings (`ShaCrypt`, `Md5Crypt`, `CryptEncoding`, `CryptSettings`, `PasswdHash`, `Decimal`).
* **Option handling**: how `cms` pairs signers with keys (`SignerOptions`), how `cmp` reads section lists
  (`SectionList`) and general-info items (`Geninfo`, on `CBuffer`).
* **Binary search** (`BinarySearch`), the search behind the library's sorted stacks.

Code that changes things step by step is a class, a method on an array, or a method with a loop, proved equal to a
function on values; the promises are then lemmas about those functions.

## What is proved

1. In every sequence of `ca` runs, with saves that fail or crash half way, every index file that a run finds loads and
   is well formed, no row is ever dropped, and rows change only from valid to expired and from unrevoked to revoked
   (`CaRuns.HistoryTheorem`). Serial numbers stay distinct as numbers (`CaRuns.SerialNumbersDistinct`). If revocations
   name known certificates, the counter stays above the table, so that no run meets a taken number
   (`CaNumbers.NumberingTheorem`). A save may leave each live file old, new or missing, but no new table beside an old
   counter: that is what every state of the modelled commits looks like (`Commit.CommitIsSave`,
   `Commit.IndexCommitIsSave`).
2. What one run does is exact in terms of its inputs: which requests of a batch are served and what is issued
   (`CaEffects.BatchStops`, `CaEffects.BatchExactly`), and what `-updatedb`, a batch, `-revoke`, `-valid` and all of
   them together leave on disk (`CaEffects.UpdateRun`, `CaEffects.IssueRun`, `CaEffects.RevokeRun`, `CaEffects.AddRun`,
   `CaEffects.WholeRun`). A request passes the policy exactly under conditions on its attributes and the CA's
   (`Policy.PolicyExactly`).
3. The text format returns a table exactly when every row is storable (`TextDb.TableRoundTrip`), and a line that can be
   read is the line its fields are written as (`TextDb.LineReadBack`). A serial number has one spelling that the CA uses
   (`HexSerial.SerialTextExactly`).
4. Revocation strings are read back with their meaning exactly when the clock prints as a UTCTime
   (`Revocation.RevocationRoundTrip`). The index file saved after a revocation loads again under exactly that condition,
   if the end date of an added certificate is a time (`CaRuns.RevokeLoadsExactly`).
5. The OCSP responder's answer to every certificate is exact (`CrlOcsp.AnswerExactly`). The CRL and the responder agree
   on every serial number exactly when the CA's spelling of each revoked row's number finds a revoked row with the same
   data (`CrlOcsp.CrlOcspAgree`). They agree and the CRL lists no number twice exactly when each revoked row has the key
   of the CA's own spelling (`CrlOcsp.CrlOcspAgreeOnce`), as on every reachable table (`CrlOcsp.ReachableAgree`).
6. A batch hands out, records and counts the same certificates (`CaRuns.BatchConserves`) and is all or nothing
   (`CaRuns.BatchAllOrNothing`). Its commit succeeds exactly when no step is noticed to fail (`Commit.CommitExactly`).
   Whatever renames fail and wherever it stops, every state of the commit is crash safe exactly when a failed write is
   noticed, or all new files are complete and no stale attribute file can come back (`Commit.SafeExactly`); from a
   crash-safe state numbering never goes back (`Commit.CrashKeepsAbove`).
7. The loops that compute a password hash in place give the declarative scheme, and all of it fits in the fixed
   buffers (`PasswdHash.ShaCryptMain`, `Md5Crypt.Md5CryptMain`); the scheme itself is also written out in plain
   concatenations (`ShaCrypt.RoundKinds`, `ShaCrypt.FiveBytes`). The scattered encodings are injective
   (`CryptEncoding.EncodingInjective`).
8. `cms` accepts a signing command line exactly when every key can be given a signer next to it, there is a signer and
   every `-keyopt` has a key, and then the greedy pairing uses each argument once (`SignerOptions.AcceptedExactly`,
   `SignerOptions.BlocksUseAll`).

## Where the code falls short of a promise

Each line names a lemma with a failing input and, where it is another one, the lemma with the exact condition.

* The results of writing the new serial and attribute files, and of closing the new index file, are not looked at. A
  short write can go unnoticed, and the rotation then makes an incomplete file live (`Commit.IncompleteLive`; exact:
  `Commit.SafeExactly`, `Commit.IndexSafeExactly`). An index file that was cut off anywhere loads without notice, and
  the rows behind the cut are gone (`CaRuns.TruncatedLoads`).
* If the live attribute file was missing when a commit started, the undo steps of a failed rotation put the `.old` one
  in its place (`Commit.StaleLive`; exact: `Commit.StaleExactly`).
* The serial index compares spellings, so a hand-edited table with rows `0a` and `0A` loads
  (`CaRuns.LoadedNumbersMayClash`; exact: `CaRuns.NumbersDistinctExactly`).
* Adding a certificate from elsewhere with the counter's number makes the next issue fail
  (`CaNumbers.ForeignNumberTaken`; exact: `CaNumbers.NextNumberFree`). The counter stays above
  the table exactly when the added number is below it (`CaNumbers.RevokedBelow`).
* If names must be unique, the name of a certificate that has run out still blocks a request for it in the run that
  marks it as expired, but not in the next one (`CaEffects.RenewalRefused`, `CaEffects.RenewalServed`; exact:
  `CaEffects.PreparedDone`).
* From 2050 on the clock prints as a GeneralizedTime. A revocation then succeeds and leaves an index file that
  does not load (`CaRuns.ClockOf2050`; exact: `CaRuns.RevokeLoadsExactly`).
* Rows that are neither valid nor revoked get no answer in an OCSP response, not even "unknown"
  (`CrlOcsp.ExpiredUnanswered`; exact: `CrlOcsp.AnsweredExactly`).
* The rest of a comment line that does not fit in the read buffer is read as a line of the table
  (`TextDb.LongCommentRefused`). A comment anywhere in a table makes no difference exactly when every chunk that the
  buffer of that moment cuts from it starts with the comment sign again (exact: `TextDb.CommentIgnoredExactly`).
* Even without any fault a rotation passes through a state in which the live index is missing (`Commit.IndexGone`);
  a run that is stopped there leaves the next one without an index.
* A `-keyopt` given for a signer while the operation is still "encrypt" is filed by recipients and can be lost to
  its signer (`SignerOptions.KeyoptLost`; exact: `SignerOptions.KeyoptsReachTheirSigner`).
* A section list that ends in a separator first asks the section with the empty name
  (`SectionList.TrailingSeparatorAsks`; exact: `SectionList.LookupIs`).
* The index sums of the binary search leave the range of `int` beyond 2^30 elements, and its byte offsets once that of
  the last element does, for a key behind all elements (`BinarySearch.Halve`).

## Assumptions

* `Formats` stands for the ASN.1 library: which texts are a UTCTime, a GeneralizedTime or an object identifier, and
  which instant a time denotes. Nothing is assumed about these functions.
* Histories of `ca` runs assume what `CaRuns.InvocationOk` says of their inputs: end dates are times, and names, dates
  and arguments contain no NUL, line break or final backslash that the text format would lose. A revocation also assumes
  a clock before 2050; `CaRuns.RevokeLoadsExactly` says what happens without that.
* In histories a save succeeds, or it fails or crashes, ends its run and leaves the live files as `CaRuns.Leave` says.
  A crash between saves is a run without the phases behind it. A run that finds no index file changes nothing.
* `Hash` stands for a digest algorithm; only the length of its result is assumed.
* Policy verdicts, operator consent, signing success, the clock and the failures of file operations are inputs.
* `long` and `unsigned long` have 64 bits.

## Model

| member | source | states |
|---|---|---|
| TextDb.WriteTable | crypto/txt_db/txt_db.c:187-232 | the buffer loops write exactly the escaped lines of the table |
| TextDb.WriteRow | crypto/txt_db/txt_db.c:209-221 | one row: the fields with a tab behind each, and the last tab overwritten by the line break |
| TextDb.WriteField | crypto/txt_db/txt_db.c:211-218 | one field with a backslash before every tab in it |
| TextDb.ReadLine | crypto/txt_db/txt_db.c:77-107 | copying fields out of a line, with a tab behind a backslash overwriting it, gives the declarative scan; wrong field counts are errors |
| TextDb.ReadTable | crypto/txt_db/txt_db.c:20-125 | the loop of `BIO_gets` calls on a growing buffer gives the declarative parse: comments skipped as far as they fit, unfinished last line dropped, any bad line an error |
| TextDb.ScanFields | crypto/txt_db/txt_db.c:77-107 | a written line is scanned back to its fields if and only if no field but the last ends in a backslash |
| TextDb.TableLacks | crypto/txt_db/txt_db.c:20-125 | fields that were read contain no line break and no character that the text does not contain |
| TextDb.ParseWidth | crypto/txt_db/txt_db.c:102-108 | every row that was read has the expected number of fields |
| TextDb.TableRoundTrip | crypto/txt_db/txt_db.c:187-232 | writing and reading a table of any width is the identity if and only if every row is storable |
| TextDb.Truncated | crypto/txt_db/txt_db.c:187-232 | every front part of a written table is some of its rows and the start of a further line |
| TextDb.UnfinishedDropped | crypto/txt_db/txt_db.c:62-70 | the start of a further line is dropped without notice |
| TextDb.ParseNoComment | crypto/txt_db/txt_db.c:65-66 | no row that is read looks like a comment |
| TextDb.RemainsRead | crypto/txt_db/txt_db.c:52-66 | a line is read as what remains of it after the comment chunks that the buffer cuts from its front |
| TextDb.CommentIgnoredExactly | crypto/txt_db/txt_db.c:52-66 | a comment behind any rows makes no difference to what is read, whatever follows it, if and only if every chunk that the grown buffer cuts from it starts with the comment sign |
| TextDb.LongCommentRefused | crypto/txt_db/txt_db.c:52-66 | so a text of one long comment can be refused |
| TextDb.WrittenLacks | crypto/txt_db/txt_db.c:187-232 | writing adds no character but tabs, backslashes and line breaks |
| TextDb.LineReadExactly | crypto/txt_db/txt_db.c:77-108 | a line can be read as `n` fields if and only if `n - 1` tabs not behind a backslash separate them, or one more that ends the line |
| TextDb.LineReadBack | crypto/txt_db/txt_db.c:77-107 | a line that can be read is exactly the line its fields are written as, up to one tab at its end |
| TextDb.FormatIs | crypto/txt_db/txt_db.c:209-223 | the text of a table written out: tabs between fields, line feeds behind rows, a backslash before a tab in a field |
| TextDb.GrownIs | crypto/txt_db/txt_db.c:55-60 | the read buffer grows in steps of 512 bytes and no further than the line needs |
| TextDb.CommentLimit | crypto/txt_db/txt_db.c:52-66 | at the start of a file a comment without further comment signs is ignored if and only if it has at most 510 bytes |
| Text.SpaceIs | apps/cmp.c:2373 | the six characters that are white space |
| Text.LowerIs | apps/ca.c:2348 | comparing without letter case folds the 26 letters and nothing else |
| HexSerial.SerialRoundTrip | apps/ca.c:1770-1773 | every serial number is spelled in a way that the load check accepts and that converts back to it |
| HexSerial.KeyKeepsValue | apps/lib/apps.c:1448-1466 | dropping leading zeros keeps the number |
| HexSerial.KeyDecidesNumber | apps/lib/apps.c:1448-1466 | equal index keys mean equal numbers on every text the load check accepts |
| HexSerial.KeyInjective | apps/lib/apps.c:1458-1466 | on the CA's own spellings the key identifies the number |
| HexSerial.KeyCaseSensitive | apps/lib/apps.c:1458-1466 | on other accepted spellings it does not: two texts for ten with different keys |
| HexSerial.SignedKeyLiteral | apps/lib/apps.c:1458-1466 | behind a sign the index compares digit by digit, while the number ignores leading zeros |
| HexSerial.UniqueSpelling | apps/lib/apps.c:1458-1466 | upper-case digits without leading zeros spell a number in one way only |
| HexSerial.QueryFindsNumber | apps/ca.c:2188-2253 | every way of typing a number in a status query, in any case and with any leading zeros, has the key of the CA's spelling |
| HexSerial.QueryTextIs | apps/ca.c:2200-2217 | the text looked up is the typed one in capital letters, with a zero in front if its length is odd |
| HexSerial.NumberKeyExact | apps/lib/apps.c:1448-1466 | two accepted texts spell one number if and only if they agree in sign and digits apart from letter case, leading zeros and the sign of zero |
| HexSerial.Hex2bnIs | crypto/bn/bn_conv.c:122-196 | the conversion succeeds on every text that passes the load check and gives its number |
| HexSerial.Hex2bnFront | crypto/bn/bn_conv.c:122-196 | on any text it reads a sign and all digits up to the first other character, and fails without a digit |
| HexSerial.HexDigitsAre | apps/ca.c:697-704 | the digits of either letter case and their values |
| HexSerial.UpperIs | apps/ca.c:2216-2217 | upper case changes the 26 letters and nothing else |
| HexSerial.SyntaxExactly | apps/ca.c:686-705 | a serial column passes the load check if and only if it is an optional sign and one or more pairs of hexadecimal digits |
| HexSerial.SerialTextExactly | apps/ca.c:1770-1773 | the CA's text of a number is its only spelling in capital digits without a pair of zeros in front and without a sign for zero |
| CBuffer.Strchr | apps/ca.c:2534-2548 | the search stops at the first occurrence or at the terminator |
| CBuffer.CutAtChar | apps/ca.c:2534-2548 | overwriting the first separator leaves the two parts as C strings of the one buffer and nothing before them changed |
| Revocation.FindReason | apps/ca.c:2343-2354 | the reason found is the first that the text spells in some letter case |
| Revocation.JoinParts | apps/ca.c:2392-2410 | the buffer that was sized for the parts holds them all, joined by commas |
| Revocation.MakeRevocationStr | apps/ca.c:2330-2412 | the text for each kind of revocation, and refusal of unknown reasons, bad identifiers and bad dates |
| Revocation.CutInPlace | apps/ca.c:2528-2548 | two in-place cuts of a copy give time, reason and argument as the declarative split does |
| Revocation.UnpackRevinfo | apps/ca.c:2517-2626 | the program succeeds if and only if the declarative reading does, and what it stores for its caller is right also when it fails: the time if it was readable, and nothing else |
| Revocation.ReasonIndexOfName | apps/ca.c:2305-2321 | no two reason names are spelled alike, so each is found at its own position |
| Revocation.RevocationRoundTrip | apps/ca.c:2330-2412 | a written revocation is read back with its meaning if the clock's text is a UTCTime, and is unreadable otherwise |
| Revocation.RevInfoRange | apps/ca.c:2560-2610 | whatever is read has a reason code the CA uses, never 7, and at most one kind of extra data, of the right format |
| Revocation.ReasonNames | apps/ca.c:2305-2321 | the eleven names in the order of their codes |
| Revocation.ReasonIndexOfAny | apps/ca.c:2343-2354 | any spelling of a name in capital and small letters finds its position |
| Revocation.ReasonCodes | apps/ca.c:2550-2612 | time, name and argument are read by a table of codes, whatever the spelling: 8 for the eighth name, 6, 1 and 2 for the three that need an argument, which must have the right format and is ignored elsewhere |
| Revocation.OtherStrings | apps/ca.c:2534-2566 | a time alone is a revocation without a reason, and a name that is none of the eleven is an error |
| Revocation.WrittenAs | apps/ca.c:2330-2412 | the text written for each kind of revocation, and exactly when it is refused |
| CaDatabase.CheckRow | apps/ca.c:671-705 | the checks on one row succeed if and only if it is loadable |
| CaDatabase.CheckFields | apps/ca.c:669-706 | the checks on all rows succeed if and only if every row is loadable |
| CaDatabase.CheckSerial | apps/ca.c:686-705 | the serial column check is: optional sign, even positive number of hexadecimal digits |
| CaDatabase.CaDb.CreateSerialIndex | crypto/txt_db/txt_db.c:147-185 | succeeds if and only if all keys differ, and then the index maps each key to its row |
| CaDatabase.CaDb.CreateNameIndex | apps/lib/apps.c:1716-1739 | succeeds if and only if the names of 'V' rows differ, and then holds exactly those names |
| CaDatabase.IndexFinds | crypto/txt_db/txt_db.c:127-145 | the index answers as a search through all rows would |
| CaDatabase.CaDb.GetBySerial | crypto/txt_db/txt_db.c:127-145 | finds the row with the key of the given text, if there is one |
| CaDatabase.CaDb.Insert | crypto/txt_db/txt_db.c:234-277 | appends the row and updates both indexes, or changes nothing if either has its key |
| CaDatabase.CaDb.Issue | apps/ca.c:1764-1917 | the clash checks, consent, signature and insertion give the result code and table of the declarative step |
| CaDatabase.CaDb.SetRevoked | apps/ca.c:2177-2179 | rewrites type and revocation date of one row and keeps both indexes right |
| CaDatabase.CaDb.Revoke | apps/ca.c:2082-2186 | the recursive retry gives the declarative result: add if missing, then revoke; refuse a different name, a present row for `-valid`, or a revoked row |
| CaDatabase.CaDb.RevokeRow | apps/ca.c:2115-2181 | the same for the row of a certificate, terminating because the retry finds the row |
| CaDatabase.CaDb.AgeRow | apps/ca.c:2274-2296 | marks one 'V' row that has run out as expired, and tells whether it did |
| CaDatabase.CaDb.UpdateDb | apps/ca.c:2255-2303 | ages rows in place and counts them; stops at an unreadable date |
| CaDatabase.CaDb.IssueBatch | apps/ca.c:919-1003 | the issue loop gives the declarative batch |
| CaDatabase.Load | apps/lib/apps.c:1654-1711 | loads if and only if the text parses, every row passes the checks and the keys are distinct; the result has those rows and fresh indexes |
| CaDatabase.UpdateStep | apps/ca.c:719-740 | `-updatedb` saves only if some row changed, and ends the run on an error or a failed save |
| CaDatabase.IssueStep | apps/ca.c:919-1104 | a batch needs the serial file and is saved only if it ran to its end, issued something and was committed; a failed save ends the run |
| CaDatabase.RevokeStep | apps/ca.c:1259-1285 | `-revoke` and `-valid` save only on success; a failed save ends the run |
| CaDatabase.Run | apps/ca.c:663-1285 | loading, updating, issuing and revoking in this order, with a save after each that may fail or crash, give the declarative run; nothing happens without an index file |
| CaDatabase.RunMany | apps/ca.c:663-1285 | any number of runs, each on the files the one before left, all load and give the declarative history; what a run needs of its files every run leaves |
| CaDatabase.CertificateStatus | apps/ca.c:2188-2253 | the report and the return code are those of the row that the query finds, and any hexadecimal spelling of a number finds the row that the CA's spelling finds |
| CaDatabase.ReportExactly | apps/ca.c:2220-2245 | which type of row gives which report, and "not present" if and only if no row has the key |
| CaRuns.IssueKeeps | apps/ca.c:1764-1917 | issuing keeps the table well formed and continues its history |
| CaRuns.RevokeKeeps | apps/ca.c:2082-2186 | so does revoking or adding |
| CaRuns.UpdateKeeps | apps/ca.c:2255-2303 | so does ageing, even when it stops half way |
| CaRuns.ExpiredMeaning | apps/ca.c:2255-2303 | the update fails if and only if some 'V' row has an unreadable date; otherwise it ages every row and counts exactly the rows it changed |
| CaRuns.ExpiredStops | apps/ca.c:2255-2303 | an update that fails has aged exactly the rows before the first unreadable date |
| CaRuns.UpdateIdempotent | apps/ca.c:2255-2303 | after an update, another one at the same or an earlier time changes and counts nothing |
| CaRuns.SavedLoads | apps/lib/apps.c:1654-1711 | a saved well-formed table loads again as it was, with fresh name index |
| CaRuns.SavedLoadsExactly | apps/lib/apps.c:1654-1711 | a saved table of storable rows loads if and only if its rows pass the checks and its keys are distinct |
| CaRuns.LoadsExactly | apps/ca.c:669-706 | a saved table loads if and only if exactly the revoked rows have a revocation date, all dates and numbers can be read, and no keys clash, each condition written out |
| CaRuns.RowText | apps/lib/apps.c:1741-1780 | the line of a row: type, end date, revocation, number, file and name, separated by tabs |
| CaRuns.LoadedColumns | apps/lib/apps.c:1654-1711 | loading any text keeps every column as it is parsed |
| CaRuns.LoadedNames | apps/lib/apps.c:1716-1739 | the name index of a loaded table holds the names of its valid rows, if and only if names must be unique |
| CaRuns.TruncatedLoads | apps/lib/apps.c:1654-1711 | an index file cut off anywhere loads, with exactly the rows before the cut |
| CaRuns.RunKeeps | apps/ca.c:663-1285 | one run loads a well-formed index file, if there is one, and leaves none or a well-formed one that continues it, however its saves end |
| CaRuns.HistoryTheorem | apps/ca.c:663-1285 | so does every sequence of runs, from any files and with any crashes in the saves: rows never disappear, valid may become expired, unrevoked may become revoked, revoked is final, identities are fixed |
| CaRuns.SerialNumbersDistinct | apps/ca.c:1803-1812 | after every sequence of runs from a canonical table all serial numbers differ, as numbers |
| CaRuns.LoadedNumbersMayClash | apps/ca.c:686-705 | the load checks alone do not give that: a table that loads with one number in two rows |
| CaRuns.NumbersDistinctExactly | apps/ca.c:686-705 | the numbers of a table that loads differ if and only if its serial columns differ in more than letter case, leading zeros behind a sign and the sign of zero |
| CaRuns.RevokeLoadsExactly | apps/ca.c:2082-2186 | the index file saved after a successful revocation or addition loads if and only if an added certificate's end date is a time and, when revoking, the clock's text is a UTCTime |
| CaRuns.ClockOf2050 | apps/ca.c:2387-2399 | at a clock text that is no UTCTime a revocation succeeds and the index file saved after it does not load |
| CaRuns.BatchConserves | apps/ca.c:919-1003 | certificates handed out, rows appended and the counter agree, in order and consecutively, also for a batch cut short |
| CaRuns.BatchAllOrNothing | apps/ca.c:1009-1104 | a batch that is saved moves both files together by exactly the issued certificates, or as far as a failed save gets; otherwise neither changes |
| CaNumbers.AboveNeverClashes | apps/ca.c:1803-1812 | numbering from above the table never meets a taken number |
| CaNumbers.AboveBatch | apps/ca.c:919-1003 | a batch numbered from above the table ends above the longer table |
| CaNumbers.BatchNeverClashes | apps/ca.c:919-1003 | at every point of a batch that started above the table the next number is free |
| CaNumbers.RevokedBelow | apps/ca.c:2115-2181 | a successful revocation or addition keeps the counter above the table if and only if it finds its row or adds a number below the counter |
| CaNumbers.NextNumberFree | apps/ca.c:2115-2181 | after a successful revocation or addition the counter's number is free if and only if it finds its row or adds another number |
| CaNumbers.NumberingTheorem | apps/ca.c:663-1285 | over every sequence of runs whose revocations name known certificates, with any crashes in the saves, the counter stays above the table and its number is free whenever both files are there |
| CaNumbers.ForeignNumberTaken | apps/ca.c:1803-1812 | after adding a certificate with the counter's number the next issue fails |
| CaEffects.IssuedExactly | apps/ca.c:1764-1917 | a certificate is issued if and only if number and name are free, the operator consents and signing succeeds; it is declined if and only if both are free and the operator does not consent; its row is written out, and otherwise nothing changes |
| CaEffects.BatchStops | apps/ca.c:919-1003 | a batch stops at the first request that cannot be served, and has by then issued exactly what the operator agreed to, in order |
| CaEffects.BatchExactly | apps/ca.c:919-1003 | it runs to its end if and only if every request passes the policy, is signed if agreed to, and meets a free number and name, counting those of the requests before it |
| CaEffects.ServedAt | apps/ca.c:919-1003 | a request that the operator agrees to has its certificate, numbered by the agreements before it |
| CaEffects.ServedFrom | apps/ca.c:919-1003 | every certificate is that of such a request |
| CaEffects.UpdateRun | apps/ca.c:719-740 | a run of `-updatedb` leaves on disk exactly the rows of type 'V' that have run out as expired and all else as it was |
| CaEffects.IssueRun | apps/ca.c:919-1104 | a run that issues leaves on disk the rows of what it served and the counter behind them, if and only if it could serve all and the operator committed |
| CaEffects.IssueNeedsCounter | apps/ca.c:919-1104 | without a serial file a batch ends the run and changes nothing |
| CaEffects.RevokedFound | apps/ca.c:2115-2181 | a certificate in the table is revoked if and only if its name agrees, it is not revoked yet and the argument is acceptable; the new row is written out |
| CaEffects.RevokedAdded | apps/ca.c:2115-2181 | one that is not is added if and only if its name is free, and then revoked if asked for; the new row is written out |
| CaEffects.RevokeWrites | apps/ca.c:1259-1285 | what succeeds is saved, and nothing else |
| CaEffects.RevokeRun | apps/ca.c:1259-1285 | a run of `-revoke` for a certificate in the table leaves its row on disk revoked, with the written text, if and only if the name agrees, it is not revoked yet and the argument is acceptable; otherwise nothing changes |
| CaEffects.AddRun | apps/ca.c:1259-1285 | for a certificate that is not in the table, `-valid` and `-revoke` leave its row on disk added, valid or revoked, if and only if its name is free and the argument is acceptable |
| CaEffects.PreparedDone | apps/ca.c:719-1104 | updating and issuing in one run: requests meet the aged table, but the names of the rows that were valid when the run started |
| CaEffects.RenewalRefused | apps/ca.c:1793-1802 | a request for the name of a certificate that has run out is refused in the run that marks it as expired |
| CaEffects.RenewalServed | apps/ca.c:1793-1802 | the same request in a run of its own behind that one is served |
| CaEffects.WholeRun | apps/ca.c:663-1285 | a run that updates, issues and revokes does all three in this order on disk; a batch that cannot be served ends it before the revocation |
| CrlOcsp.MakeEntry | apps/ca.c:2422-2474 | a CRL entry is made if and only if the row's revocation string is readable and its serial column starts with hexadecimal digits |
| CrlOcsp.MakeCrl | apps/ca.c:1172-1193 | the loop lists the revoked rows in order, fails at the first unreadable one, and is version 2 if and only if some entry has a reason |
| CrlOcsp.CrlIs | apps/ca.c:1172-1193 | the CRL of every table that loads can be made, and lists its revoked rows with their numbers |
| Agreement.ListedAt | apps/ca.c:1172-1193 | the entry of a revoked row stands behind those of exactly the revoked rows before it |
| Agreement.ListedFrom | apps/ca.c:1172-1193 | every entry is that of such a row |
| CrlOcsp.AnswerOne | apps/ocsp.c:1082-1125 | the status of one certificate, with the one extension a status can carry |
| CrlOcsp.MakeResponse | apps/ocsp.c:1035-1129 | the loop over the request gives the declarative answers in order, "malformed" for an empty request, and an internal error for an unknown digest or an unreadable time |
| CrlOcsp.AnswerIs | apps/ocsp.c:1097-1125 | the responder says "revoked" with exactly the data of the row that the number finds |
| CrlOcsp.AnswerExactly | apps/ocsp.c:1082-1127 | "unknown" if and only if the issuer is unknown or no row has the number, "good" if and only if a row of type 'V' has it, "revoked" with exactly this data if and only if a row of type 'R' with a readable time has it, an error without a readable time, and nothing for other rows |
| CrlOcsp.ResponsesFail | apps/ocsp.c:1065-1125 | a response cannot be made if and only if some id has an unknown digest or finds a revoked row without a readable time |
| CrlOcsp.SingleAt | apps/ocsp.c:1051-1129 | an id with a status has it in the response, behind the answers to the ids before it |
| CrlOcsp.SingleFrom | apps/ocsp.c:1051-1129 | every status in a response is that of such an id |
| CrlOcsp.AnyReasonIs | apps/ca.c:1177-1181 | the CRL is version 2 if and only if some entry has a reason code |
| CrlOcsp.CrlOcspAgree | apps/ocsp.c:1168-1189 | CRL and responder agree on every serial number if and only if the CA's spelling of each revoked row's number finds a revoked row with the same data |
| CrlOcsp.CrlOcspAgreeOnce | apps/ocsp.c:1168-1189 | they agree and no number is listed twice if and only if every revoked row's key is that of the CA's own spelling |
| CrlOcsp.AgreeWithoutCanonical | apps/ocsp.c:1168-1189 | agreement alone does not need such keys: two spellings of one number, revoked alike |
| Agreement.AgreeExactly | apps/ocsp.c:1168-1189 | the same equivalence for any records with sound keys |
| Agreement.AgreeOnceExactly | apps/ocsp.c:1168-1189 | and with distinct keys |
| CrlOcsp.AnsweredExactly | apps/ocsp.c:1097-1127 | a response that can be made answers every id in order if and only if no id finds, under a known issuer, a row that is neither valid nor revoked |
| CrlOcsp.ExpiredUnanswered | apps/ocsp.c:1097-1127 | an expired certificate of a known issuer gets no answer |
| CrlOcsp.ReachableAgree | apps/ocsp.c:1168-1189 | hence they agree, and list no number twice, on every table reachable from a canonical one |
| Commit.Store.Rename | apps/lib/apps.c:1607-1623 | a rename moves one file or, for any reason, fails and changes nothing |
| Commit.Store.Write | apps/lib/apps.c:1567-1578 | a file is emptied and then filled; it may stay incomplete without the program noticing |
| Commit.Store.SaveIndex | apps/lib/apps.c:1741-1780 | the table is written before the attributes, and stops at a failure that is noticed |
| Commit.Store.Rotate | apps/lib/apps.c:1607-1623 | live to old, new to live, and back if that fails |
| Commit.Store.RotateIndex | apps/lib/apps.c:1801-1834 | table and attributes are exchanged, and the table back if the attributes cannot be |
| Commit.Store.CommitIndex | apps/ca.c:731-735 | saving and rotating the index alone |
| Commit.Store.CommitBatch | apps/ca.c:1031-1102 | saving the serial file and the index, writing certificates, rotating serial file and index, each step only if the ones before are reported as successful |
| Commit.CompleteSafe | apps/ca.c:1031-1102 | with complete files every state from the first write to the last rename is crash safe, wherever it stops and whatever renames fail; success means all three new files are live |
| Commit.IncompleteLive | apps/lib/apps.c:1576-1578 | an unnoticed short write brings an incomplete file live |
| Commit.SafeExactly | apps/ca.c:1031-1102 | every state is crash safe whatever renames fail if and only if a failed write is noticed, or all files are complete and no stale attribute file can come back |
| Commit.StaleLive | apps/lib/apps.c:1827-1833 | with the live attribute file missing, undoing a failed rotation puts the old one in its place |
| Commit.StaleExactly | apps/lib/apps.c:1816-1834 | a commit of complete files can leave a wrong attribute file live if and only if it was missing and the old one is wrong |
| Commit.IndexSafeExactly | apps/ca.c:1277-1281 | the same equivalence for the commits of `-updatedb`, `-revoke` and `-valid` |
| Commit.OutcomeIs | apps/ca.c:1031-1102 | the live files of a crash-safe state are each old, new or missing, and never a new table with an old number |
| Commit.CommitIsSave | apps/ca.c:1031-1102 | every state that a safe commit of a batch passes through, and its end, is what a save in a history may leave; a successful commit leaves both new files |
| Commit.IndexCommitIsSave | apps/ca.c:731-735 | the same for the commits of the index alone, which leave the serial file as it was |
| Commit.IndexGone | apps/lib/apps.c:1801-1815 | a rotation without faults passes through a state without a live index |
| Commit.CrashKeepsAbove | apps/ca.c:1031-1102 | in every crash-safe state of a batch's commit the serial file, if both live files are there, is above every number in the index |
| Commit.RotatedExactly | apps/lib/apps.c:1607-1623 | an exchange succeeds if and only if neither rename fails; then the new file is live and the live one is kept, and an undone exchange leaves the live one |
| Commit.CommitExactly | apps/ca.c:1031-1102 | a batch is committed if and only if no write is noticed to fail, the certificates are written and no rename fails |
| Commit.CommitLeaves | apps/ca.c:1031-1102 | a committed batch leaves the new files live and the old ones under ".old" |
| Commit.CommitUndone | apps/lib/apps.c:1801-1834 | one that is not, and whose renames can be undone, leaves the old index and attributes live, and the new number only if it had been brought in |
| Commit.IndexCommitExactly | apps/ca.c:1277-1281 | the commits of the index alone succeed under the same conditions on its own files |
| Commit.IndexCommitLeaves | apps/ca.c:1277-1281 | and leave the new index live and the old one under ".old", or, undone, the old one live |
| Commit.WrittenExactly | apps/lib/apps.c:1567-1578 | a file that cannot be opened is as it was; any other is emptied first and stays so unless all of it is written; only what is noticed counts as a failure |
| Commit.WritesInOrder | apps/ca.c:1031-1048 | serial number, table and attributes are written in this order, and nothing behind a failure that is noticed |
| Policy.NextIndex | apps/ca.c:1552-1561 | the next attribute of a type behind a position, and none skipped |
| Policy.FindMatch | apps/ca.c:1586-1612 | the inner loop finds the wanted attribute if and only if the CA's name has it |
| Policy.ApplyRule | apps/ca.c:1548-1628 | one rule appends all the request's attributes of its type, or fails if and only if the rule is not satisfied |
| Policy.BuildSubject | apps/ca.c:1538-1629 | all rules in order, stopping at the first that is not satisfied |
| Policy.SubjectMeaning | apps/ca.c:1538-1629 | the check fails if and only if some rule is not satisfied; the subject has, for every type, the request's attributes once per rule that names it and nothing else |
| Policy.RefusedExactly | apps/ca.c:1548-1612 | a rule is refused if and only if its type is unknown, its demand is none of the three, an attribute it demands is missing, or one it must match is not in the CA's name |
| Policy.PolicyExactly | apps/ca.c:1538-1629 | a request passes if and only if no rule is refused, in terms of its attributes and those of the CA alone |
| Policy.SubjectFrom | apps/ca.c:1613-1628 | the subject has exactly the request's attributes whose type some rule names, and those of a "match" type are the CA's too |
| Policy.SubjectInOrder | apps/ca.c:1538-1629 | the subject of two policies, one behind the other, is the subject of the first and then that of the second |
| Policy.DeleteKind | apps/ca.c:1749-1755 | the index-adjusting deletion loop removes exactly the attributes of one type |
| Policy.WithoutMeaning | apps/ca.c:1749-1755 | none of that type is left and every other type is as it was |
| CryptEncoding.Sha256TableOk | apps/passwd.c:717-727 | the groups mention each of the 32 positions, none in two groups, and their characters hold their bytes |
| CryptEncoding.Sha512TableOk | apps/passwd.c:730-751 | the same for 64 positions |
| CryptEncoding.Md5TableOk | apps/passwd.c:444-470 | the same for the 16 positions of the MD5 scheme |
| CryptEncoding.DecodeEncode | apps/passwd.c:704-755 | every byte of a digest can be read off its encoding |
| CryptEncoding.EncodingInjective | apps/passwd.c:704-755 | digests of one length with equal encodings are equal |
| CryptEncoding.CovIs | apps/passwd.c:704-714 | the 64 characters: ".", "/", digits, capital and small letters |
| CryptEncoding.GroupBytes | apps/passwd.c:704-714 | a group is a 24-bit number of its three bytes, the first highest |
| CryptEncoding.Sha256Turns | apps/passwd.c:717-727 | each group of the table is the one before with its positions turned by one place and moved on by one, from (0, 10, 20) to the two left over |
| CryptEncoding.Sha512Turns | apps/passwd.c:730-751 | the same, turned the other way, from (0, 21, 42) on |
| ShaCrypt.CycleAt | apps/passwd.c:618-623 | byte `i` of a repeated digest is byte `i` modulo its length |
| ShaCrypt.Final | apps/passwd.c:609-616 | a digest overwrites the front of its buffer |
| ShaCrypt.FeedCycle | apps/passwd.c:618-623 | the loop that stops at one digest length feeds the repeated digest cut to the password's length |
| ShaCrypt.FeedBits | apps/passwd.c:625-632 | the walk over the length feeds one block per bit, lowest first |
| ShaCrypt.FillCycle | apps/passwd.c:647-651 | the copying loop fills a buffer with the repeated digest, within bounds |
| ShaCrypt.FeedTimes | apps/passwd.c:640-642 | the counting loop feeds the text that many times |
| ShaCrypt.RunRounds | apps/passwd.c:670-691 | the rounds, each overwriting the digest before, give the recursive definition |
| ShaCrypt.RoundsRepeat | apps/passwd.c:670-691 | what a round feeds depends only on its parity and on whether 3 and 7 divide its number |
| ShaCrypt.RoundKinds | apps/passwd.c:670-691 | the inputs of the eight kinds of rounds, written out |
| ShaCrypt.SaltCountIs | apps/passwd.c:655-657 | the salt is fed 16 times and once more for every unit of the first digest byte |
| ShaCrypt.FiveBytes | apps/passwd.c:602-691 | the whole scheme written out in digests and concatenations for a password of five bytes and three rounds |
| ShaCrypt.Compute | apps/passwd.c:602-691 | the whole computation gives the declarative digest and fails if and only if password or salt is empty |
| Decimal.ScanDigits | apps/passwd.c:545-546 | a printed number is read back, sign included, up to the first character that is not a digit |
| Decimal.ScanIs | apps/passwd.c:545-546 | any white space, one sign and digits are read up to the first character that is not a digit |
| Decimal.ScanNothing | apps/passwd.c:545-546 | without a digit nothing is read |
| Decimal.CodesAre | apps/passwd.c:545-546 | the characters that are white space and digits |
| CryptSettings.ReadCustom | apps/passwd.c:542-558 | settings in range are written and read back |
| CryptSettings.SettingsFixedPoint | apps/passwd.c:542-596 | settings that were read once, with rounds clamped and salt cut, are a fixed point of writing and reading |
| CryptSettings.SettingsLength | apps/passwd.c:493-502 | what is written fits in the space reserved for it |
| CryptSettings.ReadRounds | apps/passwd.c:542-558 | any number of rounds is raised to 1000 or lowered to 999999999, and the salt is cut to 16 bytes |
| CryptSettings.ReadBroken | apps/passwd.c:545-557 | a number without "$" behind it is an error |
| CryptSettings.ReadPlain | apps/passwd.c:516-558 | any other text is a salt, for 5000 rounds that are not printed |
| CryptSettings.ReadNegative | apps/passwd.c:545-556 | a negative number wraps around modulo 2^64 before it is raised or lowered |
| PasswdHash.AppendText | apps/passwd.c:581-596 | appending text that fits keeps what was there and ends in a terminator; text that does not fit is cut off inside the buffer |
| PasswdHash.B64From24Bit | apps/passwd.c:704-714 | writes the low base-64 digits of the word, lowest first |
| PasswdHash.EncodeAll | apps/passwd.c:716-755 | the groups of a table write the encoding of the digest |
| PasswdHash.WriteHeader | apps/passwd.c:581-596 | "$", magic, "$" and the settings |
| PasswdHash.PrintHash | apps/passwd.c:581-770 | the printed hash of the declarative scheme, always shorter than the buffer; the length guard never fires |
| PasswdHash.ShaCryptMain | apps/passwd.c:491-770 | fails if and only if the scheme is unknown, the settings are unreadable, or password or salt is empty; otherwise gives the declarative text |
| PasswdHash.TextIs | apps/passwd.c:581-755 | the text of the two schemes written out, each with its own table |
| PasswdHash.SchemeIs | apps/passwd.c:525-540 | the schemes are "5" and "6" |
| Md5Crypt.FeedLengthBits | apps/passwd.c:401-406 | one zero byte or first password byte per bit of the length |
| Md5Crypt.Permute | apps/passwd.c:444-448 | steps of 6 modulo 17 and two fix-ups visit the documented positions |
| Md5Crypt.WalkIsTable | apps/passwd.c:444-448 | that walk is the group table of the scheme |
| Md5Crypt.FourChars | apps/passwd.c:459-466 | the shifts and masks for three bytes give the digits of their 24-bit word |
| Md5Crypt.WriteDigest | apps/passwd.c:454-470 | five full groups and a short one write the encoding of the digest |
| Md5Crypt.Md5Compute | apps/passwd.c:370-431 | the digest computation gives the declarative one |
| Md5Crypt.Md5CryptMain | apps/passwd.c:309-484 | fails if and only if the magic string is longer than four bytes; otherwise gives the declarative text, inside the buffer |
| Md5Crypt.FiveByteStart | apps/passwd.c:370-412 | the first digest written out for a password of five bytes, with and without a magic string |
| Md5Crypt.Md5TextIs | apps/passwd.c:340-470 | the text with magic string "1" written out: a thousand rounds of password and salt |
| SignerOptions.Assemble | apps/cms.c:582-768 | the option loop and the checks behind it give the declarative state machine |
| SignerOptions.ParamsFor | apps/cms.c:1109-1114 | the search through the parameter list finds the arguments filed for a signer |
| SignerOptions.AcceptedPairs | apps/cms.c:582-620 | an accepted signing operation uses the signers of the blocks, each with its block's key or its own file |
| SignerOptions.BlocksUseAll | apps/cms.c:582-620 | every `-signer` and every `-inkey` is used exactly once, in order |
| SignerOptions.BlocksExactly | apps/cms.c:604-620 | taking blocks from the left misses nothing: they exist if and only if every key can be given a signer of its own next to it |
| SignerOptions.AcceptedExactly | apps/cms.c:746-768 | a signing command line is accepted if and only if such a choice exists, there is a signer, and every `-keyopt` comes when there is a key |
| SignerOptions.KeyIndexMeant | apps/cms.c:641-654 | the index that `-keyopt` computes is the last recipient or the block being assembled |
| SignerOptions.GivenAdd | apps/cms.c:656-671 | in a list that is in order, filing an argument adds it to what is found for its index and changes nothing else |
| SignerOptions.Misfiled | apps/cms.c:641-672 | a misfiled argument always shows: some signer does not get exactly what was given for it |
| SignerOptions.KeyoptsReachTheirSigner | apps/cms.c:641-672 | every signer gets exactly the arguments given while its block was being assembled, in order, if every one given while encrypting is aligned with the blocks, and, when arguments can be told apart, only then |
| SignerOptions.KeyoptsInOrder | apps/cms.c:655-670 | if none is given while encrypting, all are aligned and the parameter list has strictly increasing indices |
| SignerOptions.SignersAreBlocks | apps/cms.c:746-766 | the signers of an accepted operation are as many as its blocks |
| SignerOptions.KeyoptLost | apps/cms.c:641-672 | a command line on which an argument given for the only signer is lost |
| SectionList.ScanToken | apps/cmp.c:2370-2377 | the backward scan finds the start of the last token |
| SectionList.ScanSeparators | apps/cmp.c:2386-2393 | the second scan skips the separators before it |
| SectionList.CopyName | apps/cmp.c:2378-2385 | the token is copied and cut to the static buffer |
| SectionList.PrevItem | apps/cmp.c:2363-2394 | one call yields the last token and the trimmed rest, and always makes progress |
| SectionList.ConfGetString | apps/cmp.c:2397-2408 | the loop answers from the first section, from the end, that defines the name |
| SectionList.BackwardsIsReverse | apps/cmp.c:2363-2394 | repeated calls yield the list's tokens in reverse order, each once, after one empty name if and only if the list ends in a separator |
| SectionList.RightmostWins | apps/cmp.c:2397-2408 | the value found is that of the rightmost token whose section defines the name, and none if there is no such token |
| SectionList.LookupIs | apps/cmp.c:2397-2408 | a lookup is answered by the tokens, except that a list ending in a separator asks the empty name first |
| SectionList.TrailingSeparatorAsks | apps/cmp.c:2397-2408 | the list "a," is answered by the section with the empty name if that defines the name |
| SectionList.SeparatorIs | apps/cmp.c:2373 | a comma and the six white space characters separate, and nothing else |
| SectionList.NameIs | apps/cmp.c:2378-2385 | a name keeps its first 40 characters |
| SectionList.TwoTokens | apps/cmp.c:2363-2394 | two names with any separators before, between and behind them are the two tokens |
| Geninfo.SkipBlanks | apps/cmp.c:1949-1950 | skipping white space at the cursor |
| Geninfo.TakeInt | apps/cmp.c:1966-1980 | an integer, its range limits, and the comma or end behind it |
| Geninfo.TakeStr | apps/cmp.c:1988-1997 | a string whose comma is overwritten in place |
| Geninfo.TakeItem | apps/cmp.c:1949-2012 | one item read in place is the declarative reading, and the cursor advances |
| Geninfo.ParseGeninfo | apps/cmp.c:1938-2019 | the in-place loop gives the declarative list or its error, and the items it has pushed by then are those read before it |
| Geninfo.ReadPrintable | apps/cmp.c:1949-2012 | parsing yields only items that the format can carry |
| Geninfo.GeninfoRoundTrip | apps/cmp.c:1938-2019 | printing and parsing a list is the identity if and only if the format can carry every item of it |
| Geninfo.TagsAre | apps/cmp.c:1966-2002 | "int:" and "str:" count in any letter case, and there is no other tag |
| Geninfo.IntExactly | apps/cmp.c:1966-1987 | white space, a sign and digits are an integer, cut to 64 bits, if and only if a comma or the end follows |
| Geninfo.NoInt | apps/cmp.c:1966-1987 | without digits there is no integer |
| Geninfo.ItemExactly | apps/cmp.c:1949-2012 | an item is an identifier up to the first colon, with white space before it skipped, and a value; without a colon, with a bad identifier or a bad value it is an error |
| Geninfo.PushedAll | apps/cmp.c:1938-2019 | a list that can be read has been pushed as a whole |
| Geninfo.PushedBefore | apps/cmp.c:1938-2019 | one with a text that is no item has been pushed up to it, and is an error |
| BinarySearch.Halve | crypto/bsearch.c:25-35 | the loop finds a match if there is one or else the insertion point, with at most floor(log2 n) + 1 comparisons; its index sums stay within `int` up to 2^30 elements and can leave it beyond; its byte offsets never exceed that of the last element and reach it for a key behind all elements |
| BinarySearch.Search | crypto/bsearch.c:13-44 | a match is found if and only if there is one, the leftmost if asked for; without one, nothing or a neighbour of the insertion point |

## Left out

- X.509, CMS and CMP objects, certificate extensions, signing, key loading, and the network: they would only add inputs.
- Parsing of ASN.1 times and object identifiers: they are the abstract verdicts of `Formats`.
- The digest algorithms themselves: `Hash` is any function with results of one length.
- String-type checks of request attributes and `-preserveDN` (apps/ca.c:1478-1521): easy members.
- Random serial numbers (`-rand_serial`, `-create_serial`): the model numbers sequentially.
- The CRL number file, the order in which a CRL is sorted before signing, and its signature.
- Response ids hashed with a digest of the responder's choice, the nonce and the signature of an OCSP response.
- A type column that is empty: revoking such a row in place is modelled as replacing it by "R".
- TextDb.ReadTable: does not model NUL bytes in the index file, at which `BIO_gets` and `strlen` disagree.
- CrlOcsp.MakeEntry: does not model the limit of 2^29 digits in `BN_hex2bn`.
- CaRuns.HistoryTheorem: does not follow histories past an incomplete file, which needs an unnoticed short write; it takes the `unique_subject` setting as the same in all runs, and does not model an operator who restores a missing file by hand.
- Commit.Store.CommitBatch: does not model the content of certificate files, on which the serial and index files do not depend.
- `set` numbers of multi-valued name components.
- Allocation failures, except that of a buffer of no bytes, and EBCDIC builds.
- A negative element count in `ossl_bsearch`.
- How `app_conf_try_string` looks up one name in one section: it is an arbitrary function.
- The other operations of `cms`, `passwd`, `ocsp` and `cmp`, and the remaining applications.
