# A model of the OpenSSL mini certificate authority and some of its neighbours

The project models, in Dafny, the certificate authority in `apps/ca.c` of OpenSSL
3.5.0 with everything that decides what its database says: the rows and their two
indexes, issuing, revoking, importing and expiring, the text files the database is
kept in, the renames that put new versions in place, and the three readers -- status
query, CRL and the OCSP responder of `apps/ocsp.c`. Four smaller machines follow: the
signer options of `apps/cms.c`, the section lists of `apps/cmp.c`, the hexadecimal
keys of `apps/enc.c` and the growing buffer of `apps/engine.c`.

How it is laid out:

* `Text`, `Asn1Time`, `Calendar`, `CString`, `TxtDb` -- serial texts and index keys,
  the two ASN.1 time formats and the calendar they are reckoned by, C string routines
  on arrays, the database file format.
* `Revocation`, `Reasons`, `NameCheck`, `Policy`, `Subject`, `CertNames` -- the
  revocation codec and its reasons name by name, the string checks, the policy
  matcher, the e-mail deletion, the certificate file names: a specification as
  functions, the loops of the program as methods proved against it, and lemmas about
  the specification.
* `Table`, `Lifecycle`, `Batches`, `Reload`, `Readers` -- the table as a value and
  what every operation keeps.
* `CaDb` -- the table in memory: row objects edited in place under two index maps
  that are never rebuilt, each method proved against the functions of `Table`.
* `Disk`, `Files`, `Fates` -- files, system calls that may work, fail or stop the
  machine, writes that leave a torn file -- even when they are reported as done --
  and the save and rotate routines; what becomes of each file, call by call.
* `CaRun`, `History`, `Outcome`, `Settings`, `CaMain` -- a run from disk to disk as a
  function, what all sequences of runs keep, when a run completes and what it leaves,
  what becomes of the saved setting of unique subjects, and `ca_main` itself as
  methods proved equal to that function.
* `Pairing` and `Signers`, `Sections`, `HexKey`, `CapBuf` -- the four smaller
  machines.

A run numbers its system calls; an environment gives each its fate. A statement about
all environments is a statement about a cut at any step. Every theorem of `History`
and `Outcome` is about the function `CaRun.Execute`, and `CaMain.Perform` proves that
the imperative program computes it.

What the proofs brought to light, each with a lemma:

* A revocation from 2050 on is stamped with a GeneralizedTime. The loader accepts a
  UTCTime only, so the saved database cannot be loaded again (`Revocation.RoundTrip`,
  `History.LateRevocationUnloadable`).
* A serial in lower case, or negative with a leading zero byte, passes the loader and
  appears in the CRL, but the responder, the status query and revocation never find
  its row (`Readers.CrlAgreesWithOcsp`, exact condition), and a number in two
  spellings is listed twice (`Readers.EachOnce`, exact condition).
* An expiry whose zone moves it beyond the year 9999 is accepted but cannot be
  compared, and its row is marked as expired at once (`Lifecycle.MarksTheExpired`,
  exact condition).
* Between two renames of `rotate_index` the live attribute file is missing, and the
  configured uniqueness silently replaces the saved one (`Settings.AttributeWindow`,
  exact condition).
* A CRL number can be used for two CRLs when its rotation does not begin or has to be
  undone (`History.CrlNumberReused`, exact condition).
* `save_serial` and `save_index` report success when the last writes or the closing
  of a file fail, and the loader accepts an index cut short at any character: rows
  can be lost unnoticed (`History.TornIndex`, `History.TornReplace`,
  `History.TornCommit`, `History.TornCounter`, exact conditions).
* The name index keeps the names of certificates expired in the same run
  (`Lifecycle.ExpiredNameStillBlocks`).
* The responder does not check the rows it loads: a row revoked at an unreadable time
  makes any response that asks about it an error (`Readers.ResponseExists`).
* With `-rcid` the responder's identifiers carry no serial
  (`Readers.RcidDropsSerial`).
* For CMP, the default section shadows sections named earlier although the
  documentation calls it a fallback (`Sections.OverridePromise`, exact condition; the
  model follows the code).

Assumptions: object identifiers, request contents, the confirmation dialogue,
signing, and which CA certificate matches an OCSP identifier are parameters. Subjects
are the one-line texts `X509_NAME_oneline` makes: empty, or starting with a slash,
and printable; expiry times are proper ASN.1 times. Texts for object identifiers hold
no line end and no final backslash. Clocks lie between 1950 and 9999. Integers are
unbounded: the C integers involved are counts and lengths.

## Model

| member | source | states |
|---|---|---|
| CaMain.Perform | source_lib/openssl_3.5.0/apps/ca.c:691-1300 | The imperative program -- row objects edited in place, two index maps, a counter incremented in place, files renamed one system call at a time -- leaves the disk, certificates and CRL that `CaRun.Execute` says, and ends early exactly when that does, for every fate of every system call, saves that are lost unnoticed included, and for every clock from 1950 to 9999. All statements about histories therefore hold of the program as written. |
| Outcome.CompletedRun | source_lib/openssl_3.5.0/apps/ca.c:691-1300 | What a run that completes has left, told from the database it found: the loaded rows with the expired ones marked, a row behind them for each confirmed request numbered from the live counter on, and the certificate to be revoked marked or added -- the live index is what the last save of these rows left, and the file it was if there was nothing to save; the counter is one past the last certificate, the CRL number one further if a numbered CRL was asked for, and both unchanged otherwise. |
| Outcome.RunCompletes | source_lib/openssl_3.5.0/apps/ca.c:691-1300 | A run completes if and only if its database loads, the batch goes through and is committed under names that fit, the CRL number and the counter can be read where they are needed, the revocation is possible, and none of the listed calls that the run needs for this fails. No other outcome of any call prevents it. |
| Outcome.ExpiredOnDisk | source_lib/openssl_3.5.0/apps/ca.c:743-761 | A completed run with -updatedb that finds a valid row whose expiry, read as date and time of day, has been reached, and changes nothing else, has saved rows of which exactly those are marked whose time has been reached. |
| Outcome.RevokedOnDisk | source_lib/openssl_3.5.0/apps/ca.c:1272-1300 | A completed revocation has saved rows among which that of the certificate has type R and the field written for the options given; until 2049, unpacking it tells what they ask for, reason by name and code. |
| Outcome.CrlIssued | source_lib/openssl_3.5.0/apps/ca.c:1122-1268 | A CRL is issued if and only if everything in front of it goes through, it can be signed and written, and, if it is to be numbered, its number can be read and the next one saved. |
| Outcome.BatchReported | source_lib/openssl_3.5.0/apps/ca.c:1020-1044 | A run reports the certificates of a batch that went through and is to be committed, numbered from the live counter on, even when the commit fails, and none otherwise; and a serial "already issued" if and only if the batch met one. |
| History.ReloadClosure | source_lib/openssl_3.5.0/apps/ca.c:692-737 | From a database the loader accepts and attribute files that do not contradict the configuration, after any sequence of runs, each cut short or failing anywhere, there is a database the loader accepts, live or set aside as the old version by a rotation that was cut. It continues the one at the start: no row is removed, serial, name and expiry never change, a revoked row and its revocation text never change again, no row becomes valid again, and what has been added are rows the programs wrote. Saves of counters may be lost in any way, and saves of the index if what is left would do as well. The runs do not revoke from 2050 on; `LateRevocationUnloadable`, `TornReplace`, `TornCommit`, `Settings.UniqueConfiguredOnly` and `Settings.UniqueSavedOnly` show what happens otherwise. |
| History.NamesStayUnique | source_lib/openssl_3.5.0/apps/ca.c:1805-1815 | With unique subjects no two valid rows in any database reached share a name, although stale entries stay in the name index. |
| History.EmptySubjectsPass | source_lib/openssl_3.5.0/apps/ca.c:1792-1815 | In no run and at no place in its batch is a certificate without a subject refused for its name, if the rows at the start were written by the programs (as in an empty database) and no foreign serial was imported at or above the counter: it fails if and only if it is confirmed and cannot be signed. |
| History.ReadersStayAgreed | source_lib/openssl_3.5.0/apps/ocsp.c:1061-1141 | CRL and responder agree on every serial number after any sequence of runs, imports at or above the counter included, if the serials at the start are spelled canonically; all revoked rows are then spelled canonically, so that `SameDetails` and `EachOnce` apply to every table reached. |
| History.CounterStaysAhead | source_lib/openssl_3.5.0/apps/ca.c:1042-1115 | Over any number of runs with any crashes and no foreign serial at or above the counter: every serial in the database is below the live counter if that can be read, and the next run never meets a serial that was "already issued". Saves of the index are not lost, and what a lost save of the counter leaves is no number; `TornCounter` gives the exact condition. |
| History.FreshAuthority | source_lib/openssl_3.5.0/apps/lib/apps.c:1710-1777 | The files an authority starts from satisfy what the statements about all runs ask for. |
| History.IndexFirstWouldClash | source_lib/openssl_3.5.0/apps/ca.c:1108-1115 | Why the serial is rotated first: with the new index beside the old counter, the number given out next is taken. |
| History.ForeignSerialClashes | source_lib/openssl_3.5.0/apps/ca.c:2106-2193 | Why foreign serials must stay below the counter: importing the next number makes the next request fail as already issued, unless its name is refused first. |
| Settings.AttributeWindow | source_lib/openssl_3.5.0/apps/lib/apps.c:1851-1931 | The saved setting of unique subjects survives a complete replacement of the database if and only if what the save of the attributes left still says it; and an incomplete one if and only if it is the configured one, or the attempt does not end -- by a stop, or by a failure whose undoing fails -- between setting the old attribute file aside and putting a new one in place. No outcome of any call is excluded. |
| Settings.SettingDecides | source_lib/openssl_3.5.0/apps/lib/apps.c:1710-1777 | The index loads if and only if its rows pass the checks, its serials differ, and its valid names differ if the setting then in force asks for it. |
| Settings.UniqueConfiguredOnly | source_lib/openssl_3.5.0/apps/lib/apps.c:1889-1931 | Unique subjects being configured but not saved, a whole run that adds a certificate and stops in that window leaves a database that no longer loads if and only if two certificates in it have one name. |
| Settings.UniqueSavedOnly | source_lib/openssl_3.5.0/apps/lib/apps.c:1889-1931 | The other way round, being saved but not configured: after a run that stops in the window, a run in which the new attribute file cannot be put in place and the index not put back brings the saved setting back beside its rows, and the database no longer loads if and only if two certificates in it have one name. |
| Settings.TwoOfOneName | source_lib/openssl_3.5.0/apps/ca.c:1805-1815 | Concrete certificates for both. |
| History.TornIndex | source_lib/openssl_3.5.0/crypto/txt_db/txt_db.c:20-145 | An index cut short anywhere is accepted by the loader; it keeps what is to be kept if and only if the cut hits no row of the past. |
| History.TornReplace | source_lib/openssl_3.5.0/apps/lib/apps.c:1804-1849 | save_index does not look at what closing the file returns: a completed update or revocation whose index was torn leaves the files in order if and only if no row of the past was hit. |
| History.TornCommit | source_lib/openssl_3.5.0/apps/ca.c:1042-1115 | The same for a completed commit. |
| History.TornCounter | source_lib/openssl_3.5.0/apps/lib/apps.c:1627-1629 | save_serial does not look at what its writes return: a completed commit whose counter was torn leaves the files in order if and only if what is left is no number or one still ahead of all rows. |
| History.NothingIssued | source_lib/openssl_3.5.0/apps/ca.c:1020-1044 | A failed batch and a declined commit end the whole run with every file as it was before the issuing section, a run whose batch makes no certificate is the run without the issuing section. |
| History.IssuedOnDisk | source_lib/openssl_3.5.0/apps/ca.c:930-1116 | A commit that completes gives exactly the confirmed requests the numbers from the live counter on; the counter is one past the last and the index reads back as the old rows followed by exactly the new ones, or each is what a lost save left. |
| History.FailedRevocation | source_lib/openssl_3.5.0/apps/ca.c:1285-1294 | A run whose revocation fails leaves the files exactly as the same run without the revocation. |
| History.LateRevocationUnloadable | source_lib/openssl_3.5.0/apps/ca.c:2343-2425 | From 2050 on the time of a revocation is written as a GeneralizedTime, which the loader refuses: after any successful revocation that is saved whole the database cannot be loaded. |
| History.LateTimeIsRefused | source_lib/openssl_3.5.0/apps/ca.c:2343-2425 | The first second of 2050 as a concrete case. |
| History.CrlContents | source_lib/openssl_3.5.0/apps/ca.c:1141-1250 | The entries of a CRL are those of exactly the rows revoked in the database the run started from (expiry and new certificates add none, this run's own revocation comes later), its number is the live one, and version 2 is set if and only if some reason is not -1, or an extension section or a number is present. |
| History.CrlNumberMoves | source_lib/openssl_3.5.0/apps/ca.c:1231-1268 | After a run the CRL number is gone, unchanged or what the save of the next number left; the last for certain when the numbered CRL section completes, whatever becomes of the revocation behind it, and only when the CRL was written. |
| History.CrlNumbersGrow | source_lib/openssl_3.5.0/apps/ca.c:1247-1268 | Over all runs the CRL number never decreases, unless a lost save left another number. |
| History.CompletedCrlIsSmaller | source_lib/openssl_3.5.0/apps/ca.c:1231-1268 | A CRL of a later run has a greater number than an earlier one, unless the number of the earlier one stayed live or a lost save left another number. |
| History.CrlNumberReused | source_lib/openssl_3.5.0/apps/ca.c:1247-1268 | Whenever a CRL has been issued, its number is still live after the run, to be used again, if and only if the rotation does not begin, or fails at the new file and is undone, or the save of the next number left the old one. |
| CaRun.CommitOk | source_lib/openssl_3.5.0/apps/ca.c:1042-1115 | The commit sequence, cut anywhere, keeps index and counter fitting together, unless a save was lost harmfully. |
| CaRun.IssueSectionOk | source_lib/openssl_3.5.0/apps/ca.c:898-1116 | The whole issuing section keeps the disk and the table in order, under the same condition. |
| CaRun.RevokeSectionOk | source_lib/openssl_3.5.0/apps/ca.c:1272-1300 | So does the revocation section, given a clock before 2050 and a proper certificate. |
| CaRun.CrlSectionKeeps | source_lib/openssl_3.5.0/apps/ca.c:1122-1268 | Making a CRL changes no file but the CRL number, and not the table. |
| Disk.CommitOrderly | source_lib/openssl_3.5.0/apps/ca.c:1042-1115 | For any judgement of (index, counter) pairs and whatever the saves left: if it approves of the old index with the old, the saved and no counter, and of the saved index with the saved counter, it approves of the pair after a commit cut anywhere. The new index never stands beside the old counter. |
| Disk.CommitExactly | source_lib/openssl_3.5.0/apps/ca.c:1042-1115 | After a complete commit the files are in order if and only if what the three saves left is approved of. |
| Disk.ReplaceOrderly | source_lib/openssl_3.5.0/apps/lib/apps.c:1804-1935 | Saving and rotating the index, cut anywhere, keeps an approved database if what the save left would be approved of. |
| Disk.ReplaceExactly | source_lib/openssl_3.5.0/apps/lib/apps.c:1804-1935 | Once complete, if and only if it would. |
| Disk.AttributeLost | source_lib/openssl_3.5.0/apps/lib/apps.c:1889-1931 | The calls of rotate_index after which there is no live attribute file, exactly. |
| Disk.RotateOneLive | source_lib/openssl_3.5.0/apps/lib/apps.c:1642-1690 | A rotation cut anywhere leaves the old version, the new version, or no live file and the old version set aside; success means the new one is live and the previous one is the .old one. |
| Disk.RotateIndexLive | source_lib/openssl_3.5.0/apps/lib/apps.c:1851-1935 | The same for the index with its attribute file and all four roll-back renames: the database is never lost. |
| Disk.NumberFilesLive | source_lib/openssl_3.5.0/apps/ca.c:1247-1268 | The CRL number file is the old one, what the save left, or gone with the old one set aside. |
| Fates.RotateIndexFate | source_lib/openssl_3.5.0/apps/lib/apps.c:1851-1935 | Call by call, which version of the index is live after a rotation of both files, roll-backs included: the old one, the new one, or none with the old one set aside. |
| Fates.ReplaceFate | source_lib/openssl_3.5.0/apps/lib/apps.c:1804-1935 | The same for a whole replacement: nothing is renamed before rows and attributes have been saved. |
| Fates.CommitFate | source_lib/openssl_3.5.0/apps/ca.c:1042-1115 | The same for counter and index in a commit: nothing is renamed before everything has been saved, the names fit and the certificates are written; and the index is not touched unless the counter is in place. |
| Files.Files.RotateSerial | source_lib/openssl_3.5.0/apps/lib/apps.c:1642-1690 | The renames as written, with ENOENT forgiven and the undo on failure, have the outcome of the specification for every fate of each call. |
| Files.Files.RotateIndexFiles | source_lib/openssl_3.5.0/apps/lib/apps.c:1851-1935 | The same for rotate_index. |
| Files.Files.SaveIndexFiles | source_lib/openssl_3.5.0/apps/lib/apps.c:1804-1849 | Writes the rows in memory and then the attributes; an empty table is an error, as TXT_DB_write's zero return makes it, and a loss on closing a file is not noticed. |
| CaMain.IssueBatch | source_lib/openssl_3.5.0/apps/ca.c:930-1016 | The loop with the counter incremented in place computes the batch: certificates, table, counter and refusal. |
| Lifecycle.BatchNumbers | source_lib/openssl_3.5.0/apps/ca.c:996-1013 | The certificates made carry the serial and its successors without a gap, and the counter ends one past the last. |
| Lifecycle.BatchRows | source_lib/openssl_3.5.0/apps/ca.c:1905-1929 | The table gains exactly the rows of those certificates, in order, and nothing else changes. |
| Lifecycle.BatchCertifiesWanted | source_lib/openssl_3.5.0/apps/ca.c:930-1016 | A batch that is not cut short certifies exactly the confirmed requests, in order. |
| Batches.BatchSucceeds | source_lib/openssl_3.5.0/apps/ca.c:1777-1944 | While the counter is ahead, a batch goes through if and only if no request is broken, every confirmed one can be signed, and (with unique subjects) no name is on record or that of a certificate made earlier in the batch. |
| Lifecycle.BatchKeepsCounter | source_lib/openssl_3.5.0/apps/ca.c:1816-1825 | With the counter ahead of the table the "already issued" branch is unreachable, and issuing keeps it ahead. |
| Lifecycle.RevokeKeepsCounter | source_lib/openssl_3.5.0/apps/ca.c:2106-2193 | After a revocation or import the counter is ahead if and only if the serial was below it. |
| Lifecycle.EmptySubjectNeverClashes | source_lib/openssl_3.5.0/apps/ca.c:1792-1815 | Among rows the programs wrote, a certificate without a subject never clashes by name when its serial is new. |
| Lifecycle.ExpiredNameStillBlocks | source_lib/openssl_3.5.0/apps/ca.c:1805-1815 | The name index is not rebuilt within a run: it blocks the names valid at load time, a fresh load only those not expired since. |
| CertNames.NameCert | source_lib/openssl_3.5.0/apps/ca.c:1058-1087 | The file name is built inside the path buffer for every byte string, or refused if and only if name and terminator do not fit; no byte outside is touched. |
| CertNames.NameCerts | source_lib/openssl_3.5.0/apps/ca.c:1050-1087 | All names of a batch, in order, or a refusal if and only if one of them is too long -- also when the directory itself was truncated. |
| CertNames.FitByLength | source_lib/openssl_3.5.0/apps/ca.c:1050-1068 | They fit if and only if directory, slash, serial digits without a sign, and suffix have at most 4095 characters for each certificate. |
| CertNames.BatchFileNames | source_lib/openssl_3.5.0/apps/ca.c:1058-1087 | The files of a batch have different names, and each is named after the serial field of its row. |
| Table.OpenConsistent | source_lib/openssl_3.5.0/apps/lib/apps.c:1779-1802 | A database that can be indexed is indexed completely: every serial once, every valid name once. |
| CaDb.Db.BuildIndexes | source_lib/openssl_3.5.0/crypto/txt_db/txt_db.c:147-185 | Building the indexes over the row objects fails if and only if two serials, or with unique subjects two valid names, coincide. |
| CaDb.Db.CheckFields | source_lib/openssl_3.5.0/apps/ca.c:691-730 | The loader's loop accepts exactly the rows that pass all its checks. |
| CaDb.Db.InsertRow | source_lib/openssl_3.5.0/crypto/txt_db/txt_db.c:234-298 | Insertion is refused if and only if an index the row qualifies for has its key; otherwise the row is last and both indexes lead to it. |
| CaDb.Db.IssueOne | source_lib/openssl_3.5.0/apps/ca.c:1777-1944 | Verdict, table and kind of clash of one request. |
| CaDb.Db.DoRevoke | source_lib/openssl_3.5.0/apps/ca.c:2095-2199 | The recursive routine on row objects, edited in place: it recurs at most once, and its result and table are those of the specification. |
| Lifecycle.RevokeDecides | source_lib/openssl_3.5.0/apps/ca.c:2123-2193 | A revocation succeeds if and only if the listed row has the certificate's name, is not revoked and the argument is usable, or the certificate is not listed, its name is free and it is merely added or the argument is usable: the retry on the added row fails for no other reason. |
| Lifecycle.RevokeTouches | source_lib/openssl_3.5.0/apps/ca.c:2175-2193 | A revocation changes one row only; on success that row has type R and the new text, or is the row just added. |
| Lifecycle.RevokeAfterIssue | source_lib/openssl_3.5.0/apps/ca.c:2106-2193 | A certificate issued earlier is found at its own row in whatever state the table is by then, and revoked if and only if it is not revoked yet and the argument is acceptable. |
| Lifecycle.ImportedRowIsFound | source_lib/openssl_3.5.0/apps/ca.c:2140-2173 | The row added for an unknown serial is the one the retry finds, so the recursion ends there. |
| CaDb.Db.DoUpdateDb | source_lib/openssl_3.5.0/apps/ca.c:2268-2316 | Marks the rows in place and returns their number, or -1 when the expiry of a valid row is no time at all, with exactly the rows in front of it marked. In a table that could be read, a row whose expiry says a time is marked if and only if it is valid and the clock, compared as date and time of day, has reached that time; all others are unchanged. |
| Lifecycle.MarksTheExpired | source_lib/openssl_3.5.0/apps/ca.c:2296-2311 | Exactly the valid rows whose expiry is not after now are marked if and only if no valid row has an expiry that its zone moves beyond the year 9999. |
| Calendar.ExpiresByCalendar | source_lib/openssl_3.5.0/apps/ca.c:2296-2311 | A valid row whose expiry is written with a two-digit or four-digit year and a Z expires if and only if year, month, day, hour, minute and second of the clock, compared in this order, are not before those of the expiry. |
| Calendar.IssuedRowExpires | source_lib/openssl_3.5.0/apps/ca.c:1905-1929 | The row of a certificate carries its number, name and expiry, and an update marks it from exactly that time on. |
| Calendar.SecondsFollowCalendar | source_lib/openssl_3.5.0/crypto/o_time.c:133-184 | The seconds that times are compared by follow the order of the calendar, for all valid times. |
| Calendar.SecondsTick | source_lib/openssl_3.5.0/crypto/o_time.c:133-184 | The next second by the calendar, over the ends of minutes, days, months and years, is one second later. |
| Calendar.NextMonth | source_lib/openssl_3.5.0/crypto/o_time.c:179-184 | The number of the last day of a month, plus one, is that of the first day of the next month, leap years included. |
| Calendar.NextYear | source_lib/openssl_3.5.0/crypto/o_time.c:179-184 | The same from 31 December to 1 January. |
| Calendar.DayNumbers | source_lib/openssl_3.5.0/crypto/o_time.c:179-184 | 1970 began with day 2440588; a year has 366 days if it is a leap year, else 365. |
| Calendar.LeapYears | source_lib/openssl_3.5.0/crypto/asn1/a_time.c:37-42 | Which years are: those divisible by four, except for full centuries not divisible by four hundred. |
| Calendar.SaidIsRead | source_lib/openssl_3.5.0/crypto/asn1/a_time.c:76-260 | A text of year, month, day, hour, minute, second and Z is read as that time in either format. |
| Calendar.ClockSays | source_lib/openssl_3.5.0/crypto/asn1/a_time.c:265-321 | And the clock is written so. |
| Calendar.SaidDigits | source_lib/openssl_3.5.0/crypto/asn1/a_time.c:265-321 | A concrete clock with all parts different, digit by digit, in both formats. |
| Calendar.OnlyValidTimes | source_lib/openssl_3.5.0/crypto/asn1/a_time.c:123-184 | Of all such texts with a two-digit year exactly those of days that exist and of times of day are accepted. |
| Calendar.Fraction | source_lib/openssl_3.5.0/crypto/asn1/a_time.c:185-250 | A concrete time with a fraction, which is dropped, and a zone. |
| Calendar.NoSeconds | source_lib/openssl_3.5.0/crypto/asn1/a_time.c:125-250 | One without seconds and with a zone the other way. |
| Calendar.RejectedTimes | source_lib/openssl_3.5.0/crypto/asn1/a_time.c:123-256 | Concrete texts that are rejected: a fraction without a digit or in a UTCTime, something behind the Z, a Z without seconds. |
| Calendar.ZoneIsRead | source_lib/openssl_3.5.0/crypto/asn1/a_time.c:213-250 | Every zone text: hours to 12 and minutes to 59, subtracted after a plus sign and added after a minus sign, and nothing else. |
| Lifecycle.MarkedTooEarly | source_lib/openssl_3.5.0/crypto/asn1/a_time.c:240-250 | A concrete expiry of that kind: it passes the loader, lies in the future of every clock, and is marked at once. |
| Lifecycle.ExpiredCountCounts | source_lib/openssl_3.5.0/apps/ca.c:2284-2311 | The number returned is that of the rows changed, and those are exactly the valid rows whose expiry does not compare as after now. |
| Lifecycle.ExpireTwice | source_lib/openssl_3.5.0/apps/ca.c:2284-2311 | A second run at the same time changes nothing and counts zero. |
| Text.SerialKeysDistinct | source_lib/openssl_3.5.0/apps/lib/apps.c:1495-1513 | Two numbers share an index key only when they are equal. |
| Text.AddressableKey | source_lib/openssl_3.5.0/apps/lib/apps.c:1495-1513 | A stored serial spelled the way the programs spell it is filed under the key computed from its number. |
| Text.KeyFoundIsAddressable | source_lib/openssl_3.5.0/apps/lib/apps.c:1495-1513 | And only such serials can be found. |
| Text.SerialTextReadsBack | source_lib/openssl_3.5.0/crypto/bn/bn_conv.c:15-60 | The text written for a serial passes the loader's check and denotes the number it was made from. |
| TxtDb.RowRoundTrip | source_lib/openssl_3.5.0/crypto/txt_db/txt_db.c:187-232 | A written row reads back if and only if no field but the last ends in a backslash; otherwise the line is rejected. |
| TxtDb.ReloadStable | source_lib/openssl_3.5.0/crypto/txt_db/txt_db.c:20-145 | Whatever file could be read reads the same after being written out. |
| TxtDb.TornReads | source_lib/openssl_3.5.0/crypto/txt_db/txt_db.c:20-145 | A written file cut short at any character reads as exactly the rows whose lines lie in front of the cut. |
| Reload.LineOfRow | source_lib/openssl_3.5.0/apps/lib/apps.c:1804-1849 | The line of a row: type, expiry, revocation, serial, file and name with tabs between, in this order. |
| Reload.RowChecks | source_lib/openssl_3.5.0/apps/ca.c:691-730 | A row passes if and only if it has a revocation that can be unpacked under a type beginning with R and none under any other, an expiry in one of the two time formats, and a serial of whole hexadecimal bytes with at most one minus sign. |
| TxtDb.EscapedParts | source_lib/openssl_3.5.0/crypto/txt_db/txt_db.c:187-232 | Fields are escaped character by character. |
| TxtDb.EscapedTab | source_lib/openssl_3.5.0/crypto/txt_db/txt_db.c:187-232 | A tab by a backslash in front of it. |
| TxtDb.ColumnsCounted | source_lib/openssl_3.5.0/crypto/txt_db/txt_db.c:80-125 | A line is a row if and only if it has five tabs, or six with nothing behind the last. |
| TxtDb.LinesSkipped | source_lib/openssl_3.5.0/crypto/txt_db/txt_db.c:55-75 | Comment lines are skipped, and so is what follows the last line end. |
| Reload.SavedLoads | source_lib/openssl_3.5.0/apps/lib/apps.c:1804-1849 | A sound table is saved to a file that loads with the same rows. |
| Reload.RevocationReloads | source_lib/openssl_3.5.0/apps/ca.c:2175-2193 | After a successful revocation the saved table loads again if and only if the clock was before 2050 (or nothing was revoked) and an imported certificate had a readable expiry. |
| Reload.BatchSound | source_lib/openssl_3.5.0/apps/ca.c:1905-1929 | Issuing keeps the table loadable. |
| Revocation.RoundTrip | source_lib/openssl_3.5.0/apps/ca.c:2343-2425 | Unpacking what was written gives back the time, the mapped reason and exactly the hold object or compromise time asked for; unpacking succeeds if and only if the year is before 2050. `Reasons.WrittenIsRead` states it name by name and number by number. |
| Reasons.WrittenIsRead | source_lib/openssl_3.5.0/apps/ca.c:2318-2425 | The same with every name and code spelled out, in any letter case: unspecified 0, keyCompromise 1, CACompromise 2, affiliationChanged 3, superseded 4, cessationOfOperation 5, certificateHold 6, removeFromCRL 8; a hold 6 with its object, a key time 1 and a CA key time 2 with their time; none -1. It does not mention the table the programs use. |
| Reasons.RevocationReported | source_lib/openssl_3.5.0/apps/ca.c:2435-2487 | From the options of a revocation to the CRL entry and the OCSP answer made from its row: they carry the serial, and the time, code, hold object or compromise time so spelled out. |
| Reasons.FieldWithReason | source_lib/openssl_3.5.0/apps/ca.c:2530-2639 | Any field of a time, a comma and a reason is unpacked to the code of that name, or rejected for the three pseudo reasons and all other names; nothing is unpacked when the time is no UTCTime. |
| Reasons.FieldWithExtra | source_lib/openssl_3.5.0/apps/ca.c:2530-2639 | The same with a third part, which the pseudo reasons need: an object known by that name, or a GeneralizedTime. |
| Reasons.FieldWritten | source_lib/openssl_3.5.0/apps/ca.c:2343-2425 | The field written without a reason, with a hold instruction and with the two compromise times, as text; the latter two exactly if the argument names an object or is a GeneralizedTime. |
| Reasons.ReasonWritten | source_lib/openssl_3.5.0/apps/ca.c:2343-2425 | -crl_reason takes exactly the eight proper names, in any letter case, and the name is written behind the time. |
| Revocation.JoinParts | source_lib/openssl_3.5.0/apps/ca.c:2392-2425 | The computed allocation is exact: no strlcpy or strlcat truncates. |
| Revocation.MakeRevocationStr | source_lib/openssl_3.5.0/apps/ca.c:2343-2425 | Encoder on C buffers against the specification, for every type and argument; what that is, as text, `Reasons.FieldWritten` and `Reasons.ReasonWritten` say. |
| Revocation.UnpackRevinfo | source_lib/openssl_3.5.0/apps/ca.c:2530-2639 | Decoder, splitting a copy in place by writing terminators over the first two commas, for every text; what it reports, name by name, `Reasons.FieldWithReason` and `Reasons.FieldWithExtra` say. |
| Revocation.UnpackedCodes | source_lib/openssl_3.5.0/apps/ca.c:2530-2639 | For any text at all the reason is a code of section 5.3.1 of RFC 5280 and never 7; hold object and compromise time are never both set and come with their own reason only. |
| Asn1Time.ClockIsUtc | source_lib/openssl_3.5.0/crypto/asn1/a_time.c:265-321 | A clock before 2050 is written as a UTCTime and parses to the same instant. |
| Asn1Time.ClockIsNotUtc | source_lib/openssl_3.5.0/crypto/asn1/a_time.c:265-321 | From 2050 on it is not a UTCTime. |
| Readers.CrlAgreesWithOcsp | source_lib/openssl_3.5.0/apps/ocsp.c:1061-1141 | CRL and responder say "revoked" about the same certificates if and only if every revoked row's serial is spelled canonically; lower-case spellings, and over-long ones of negative numbers, that the loader accepts are in the CRL but unknown to the responder. |
| Readers.LowerCaseIsMissed | source_lib/openssl_3.5.0/apps/ocsp.c:1180-1200 | A concrete row of that kind. |
| Readers.AnswerByType | source_lib/openssl_3.5.0/apps/ocsp.c:1086-1141 | For any indexed table, checked or not: a known issuer's certificate is good exactly for a V row, revoked exactly for an R row with a readable time, an error for any other R row, unknown exactly when absent, and left out of the response for every other type. |
| Readers.SameDetails | source_lib/openssl_3.5.0/apps/ca.c:2435-2487 | For the same certificate both report the same time, reason and extension: the responder's else-if and the CRL's two ifs agree. |
| Readers.StatusFindsSameRow | source_lib/openssl_3.5.0/apps/ca.c:2213-2260 | The status query finds the row the responder answers from, however the digits are typed. |
| Readers.ResponseExists | source_lib/openssl_3.5.0/apps/ocsp.c:1061-1141 | A request is malformed if and only if it has no identifier, and answered with an internal error if and only if some identifier uses an unknown digest or asks, some CA certificate being of its issuer, about a row of type R whose revocation time cannot be read. |
| Readers.UntimedRowSpoils | source_lib/openssl_3.5.0/apps/ocsp.c:1106-1120 | A concrete row of that kind: every request that mentions it gets an error. |
| Readers.ResponseIsExpected | source_lib/openssl_3.5.0/apps/ocsp.c:1061-1141 | It then holds exactly one single response per identifier, in request order, except for those of a known issuer whose row is neither valid nor revoked: unknown if no CA certificate is of the issuer, else what the row says -- under its own identifier, or with -rcid under that of the first CA certificate that is. |
| Readers.IssuerIsFirst | source_lib/openssl_3.5.0/apps/ocsp.c:1082-1092 | An issuer is found if and only if some CA certificate is of the issuer asked about, and it is then the one at the least such position. |
| Readers.RcidDropsSerial | source_lib/openssl_3.5.0/apps/ocsp.c:1073-1092 | With -rcid two different certificates of one issuer are answered under equal identifiers, since the rehashed identifier has no serial; without it they are not. |
| Readers.EachOnce | source_lib/openssl_3.5.0/apps/ca.c:1185-1206 | Every number is in the CRL at most once if and only if no revoked row whose serial is not spelled canonically has the number of another revoked row: the index tells spellings apart, the CRL does not. |
| Readers.TwoSpellingsListed | source_lib/openssl_3.5.0/apps/ca.c:1185-1206 | A concrete pair the loader accepts, with number 10 listed twice. |
| Readers.RevokedRowsDistinct | source_lib/openssl_3.5.0/apps/ca.c:1185-1206 | The rows the entries are made from have distinct index keys. |
| Readers.RevokedInOrder | source_lib/openssl_3.5.0/apps/ca.c:1185-1206 | They are listed in the order of the table. |
| CaDb.Db.BuildCrl | source_lib/openssl_3.5.0/apps/ca.c:1185-1206 | The loop over the row objects collects the entries and decides on version 2. |
| CaDb.Db.MakeOcspResponse | source_lib/openssl_3.5.0/apps/ocsp.c:1028-1141 | The nested loops with the found flag compute the specified response, error statuses included; `ResponseExists`, `ResponseIsExpected` and `AnswerByType` say which it is. |
| CaDb.Db.CertificateStatus | source_lib/openssl_3.5.0/apps/ca.c:2201-2265 | Returns 1 if and only if the row found is of one of the four known types. |
| Policy.PolicyAccepts | source_lib/openssl_3.5.0/doc/man1/openssl-ca.pod.in:633-640 | The policy is met if and only if every item is: known attribute and keyword, something supplied where demanded, every matched value among the CA's. The subject is then the request's own entries, item by item, in their order. |
| Policy.RuleAccepts | source_lib/openssl_3.5.0/apps/ca.c:1561-1641 | The same for one item. |
| Policy.PolicyRefuses | source_lib/openssl_3.5.0/apps/ca.c:1561-1641 | The reason for a refusal, if and only if: it is that of the first item not satisfied -- unknown type, invalid keyword, not supplied, no entry of the type in the CA's name, or an entry that differs from all of these. |
| Policy.OfInOrder | source_lib/openssl_3.5.0/apps/ca.c:1561-1641 | The entries taken for one item keep the order of the request. |
| Policy.MatchPolicy | source_lib/openssl_3.5.0/apps/ca.c:1551-1642 | The nested loops with their restarts refine the list specification, reasons for refusal included. |
| Policy.ApplyRule | source_lib/openssl_3.5.0/apps/ca.c:1561-1641 | The endless loop over one item terminates although j is overwritten by a position in the CA's name: that never ends it early. |
| Policy.FindInCa | source_lib/openssl_3.5.0/apps/ca.c:1588-1619 | The search that restarts finds the first equal CA entry if there is one. |
| Subject.DeleteAll | source_lib/openssl_3.5.0/apps/ca.c:1759-1772 | The delete-while-scanning loop terminates and leaves exactly the other entries in order, in the same RDNs. |
| NameCheck.CheckName | source_lib/openssl_3.5.0/apps/ca.c:1490-1534 | The loop that puts string types right in place and checks them accepts a name if and only if every entry that is kept suits its type, and e-mail entries are IA5 strings. |
| NameCheck.PassesByTag | source_lib/openssl_3.5.0/apps/ca.c:1509-1534 | When an entry passes, by tag number and character: only 22 for an e-mail address; anything for 12, 20 and 30; the PrintableString characters, listed, for 19; ASCII for all others. |
| NameCheck.RetaggedTags | source_lib/openssl_3.5.0/apps/ca.c:1495-1507 | Which tag -msie_hack turns into which, by number; the characters stay. |
| NameCheck.NarrowTags | source_lib/openssl_3.5.0/crypto/asn1/a_print.c:20-69 | A wide string of any characters is narrowed to them, with the narrowest tag by number. |
| NameCheck.UniversalToString | source_lib/openssl_3.5.0/crypto/asn1/a_print.c:41-69 | Exactly the strings of four-byte characters below 256 are narrowed. |
| NameCheck.HackHelps | source_lib/openssl_3.5.0/apps/ca.c:1495-1507 | With -msie_hack no IA5 string is left outside e-mail entries and no PrintableString in them, and nothing that passes fails because of it. |
| Subject.BuildSubject | source_lib/openssl_3.5.0/apps/ca.c:1489-1775 | From request to subject: accepted if and only if the strings suit their types and the policy is met, and then the regrouped or preserved name, without e-mail entries unless wanted. |
| Subject.RenumberedIsCanonical | source_lib/openssl_3.5.0/crypto/x509/x509name.c:188-240 | A name built entry by entry is numbered without gaps, so that the statement about RDNs applies to it. |
| Subject.DeleteKeepsGroups | source_lib/openssl_3.5.0/crypto/x509/x509name.c:101-139 | Deleting an entry closes the gap in the set numbers and changes which of the other entries share an RDN in no way. |
| Signers.AddSigners | source_lib/openssl_3.5.0/apps/cms.c:593-787 | From the options to the signing loop, told from positions in the option list: they are accepted if and only if they form blocks, at least one -- each with one -signer, at most one -inkey before or after it, -keyopt only behind its first file, and without an -inkey only if it is last or the next block begins with a -signer -- and signer i is then the one of block i with its key, or its own file if it has none, and its options. |
| Pairing.AcceptedAreBlocks | source_lib/openssl_3.5.0/apps/cms.c:593-783 | Which option sequences are accepted, as an if-and-only-if over blocks. |
| Pairing.BlocksPaired | source_lib/openssl_3.5.0/apps/cms.c:593-787 | The pairs are those of the blocks, one by one. |
| Pairing.SignersPaired | source_lib/openssl_3.5.0/apps/cms.c:763-787 | One signer and one key per pair; the signers are the -signer arguments in order, the keys given are the -inkey arguments, each once and in order, the options the -keyopt arguments. |
| Pairing.PairsConserve | source_lib/openssl_3.5.0/apps/cms.c:593-688 | No argument is lost, invented or reordered on the way, and every finished pair has a signer. |
| Signers.NotesTell | source_lib/openssl_3.5.0/apps/cms.c:656-688 | The list's indices strictly increase, and the first match for a pair holds exactly the options given while it was assembled. |
| Signers.Options.Parse | source_lib/openssl_3.5.0/apps/cms.c:593-688 | The option loop on its fields and linked list follows the specification by single steps, which `Pairing.AcceptedAreBlocks` and `Pairing.BlocksPaired` turn into one by blocks. |
| Signers.Options.Find | source_lib/openssl_3.5.0/apps/cms.c:1128-1142 | The search through the linked list is the first-match search. |
| Sections.PrevItem | source_lib/openssl_3.5.0/apps/cmp.c:2579-2611 | One step strictly moves back and yields the last name of the list up to there, cut to 40 characters. |
| Sections.ConfGetString | source_lib/openssl_3.5.0/apps/cmp.c:2613-2627 | The backward loop gives the value of the last listed section for which the look-up succeeds. |
| Sections.OverridePromise | source_lib/openssl_3.5.0/doc/man1/openssl-cmp.pod.in:199-203 | The documented rule -- later sections override earlier ones, the default section is the fallback behind all -- holds if and only if not: the default section has the option, the last section does not, and an earlier one has it with another value. |
| Sections.ListedNames | source_lib/openssl_3.5.0/apps/cmp.c:2579-2611 | A comma-separated list of names is read as those names. |
| Sections.ListDetails | source_lib/openssl_3.5.0/apps/cmp.c:2579-2627 | The separators, the 40 characters that count, and that a section ENV falls back to the environment first and to the default section then. |
| Sections.EarlierSectionIsShadowed | source_lib/openssl_3.5.0/apps/cmp.c:2613-2627 | A concrete configuration on which the documented rule fails. |
| HexKey.SetHex | source_lib/openssl_3.5.0/apps/enc.c:821-849 | For every input: the bytes of its first 2*size digits padded right with zeros, a refusal if and only if one of them is no digit (what precedes it has been stored then), nothing stored past size. |
| HexKey.DecodedValue | source_lib/openssl_3.5.0/apps/enc.c:821-849 | A byte of the key is worth sixteen times its first digit plus its second, or plus nothing if there is none. |
| Text.HexDigits | source_lib/openssl_3.5.0/crypto/o_str.c:162-207 | The digits themselves, in both letter cases. |
| HexKey.PrintHex | source_lib/openssl_3.5.0/apps/enc.c:717-735 | The printing loop on the array. |
| HexKey.PrintedRoundTrip | source_lib/openssl_3.5.0/apps/enc.c:717-735 | Reading what was printed restores every byte. |
| HexKey.PrintDecoded | source_lib/openssl_3.5.0/apps/enc.c:717-735 | Printing what was read gives the digits back in upper case. |
| CapBuf.Buf.Append | source_lib/openssl_3.5.0/apps/engine.c:55-90 | Separator only behind a non-empty content, terminator within the recorded size, size a positive multiple of 256 that never shrinks, buffer kept when it fits, emptied when reallocation fails. |
| CapBuf.AppendAll | source_lib/openssl_3.5.0/apps/engine.c:405-455 | A sequence of calls, as the capabilities are collected, leaves what the specification of the sequence says, and fails only when a reallocation does. |
| CapBuf.AppendedIsJoin | source_lib/openssl_3.5.0/apps/engine.c:55-90 | Any sequence of appends makes the comma-space join of its items from the first non-empty one on. |
| CapBuf.JoinedPair | source_lib/openssl_3.5.0/apps/engine.c:55-90 | A concrete join, and the buffer sizes around 256. |

## Left out

- Random serials (`-rand_serial`) and creating a missing serial file: nothing is counted across runs there; the clash check alone keeps serials apart.
- Sorting the CRL by serial: the entries are modelled in row order.
- The certificate files beside the index: they are written before the rotations, so a cut can leave files the index does not know; the code promises nothing about it. Writing them is one step that works or not; only their names are modelled.
- What is left of a CRL or a certificate file when writing it fails: the programs do not look at the result, and a CRL counts as issued when they go on.
- Comment lines longer than the reader's buffer, rows whose type field is empty in memory, and fields with embedded terminators: the in-place reader of TXT_DB is a function on texts here.
- CaDb.Db.DoRevoke: fields are strings that are replaced whole, because how much memory a field occupies is not modelled; that the type field has room for one letter is taken for granted.
- Signers.AddSigners: the options are those of a signing operation; the counting of recipients when encrypting is left out.
- Sections.OverridePromise: environment variables are visible only under the section name ENV, as in the configuration library; its other features (includes, variables) are left out.
- HexKey.SetHex: the warnings about short or long input are output only and not modelled.
- Readers.CrlAgreesWithOcsp: issuers are a given relation between CA certificates and identifiers, because hashing names and keys is library code.
- The three front ends for requests (SPKAC, self-issued certificates, PKCS #10): only their three-way outcome, as requests in command-line order.
- Signature and extension code, DER and PEM, options, prompts, messages, sockets and HTTP, memory allocation failure except the one in `append_buf`.
