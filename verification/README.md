# Verified models of pqc-readiness

pqc-readiness scans hosts for post-quantum readiness. It reads package databases, certificates, key stores and
configuration files that nobody vouches for, looks paths up in mounted file trees, and joins network observations
to a fleet of reports. This project models those readers and that join in Dafny and proves what they promise.

The source works step by step, so each of its loops is a method here, proved equal to a function of its input.
Where it updates objects (`HostIndex`) or the variables of an enclosing function (`parse_sshd_config`,
`parse_openssl_cnf`), the model is a class. The theorems are about those functions. Encoders, printers, file
layouts and the kernel's path walk are specifications that exist only here: the source has only readers. Layouts are
written out byte by byte, not in terms of the readers' own tests.

| files | what they model |
|---|---|
| HostTree, PathResolver, PathMissing | symlink resolution below a scanned root |
| NginxSyntax, NginxSpelling, NginxRoundTrip | the nginx tokenizer and statement parser |
| SshdConfig, SshdUncertainty | the sshd_config walk and its `kex_uncertain` flag |
| Sorting, OpensslConfig, OpensslInlining | openssl.cnf and its includes |
| RpmHeader, RpmHeaderExact, BlobRun, Adler32, Ndb, NdbImage | rpm headers and the ndb package database |
| BerkeleyDb, BerkeleyDbImage, BerkeleyDbLayout, BerkeleyDbReach | the Berkeley DB hash package database |
| RpmDatabase | a whole package database read, from either reader |
| Der, Certificates, CertificateWalk, CertificateFields, CertificateErrors, CertificateTimes, CertificateExact | DER, the full certificate parse, the OID-only walk, times, and the errors that are no DERError |
| HostIndex, ObservationJoin, JoinLaws, JoinRows, FleetRollup | the fleet index, the observation join and the rollup |
| Text, IkeText, IkeDialects, IkeProposal | the text of IKE proposals, its two dialects, and the classification |
| Keytab, KeytabLayout, KeytabExact, Jks, JksExact, SignatureLists, SignatureLayout | MIT keytabs, JKS keystores and EFI signature lists |
| Bytes, Options | bytes, integers in either byte order, options |

Findings, each with a concrete input or an exact condition:

- A quoted nginx word that is exactly `{`, `}` or `;` is taken for punctuation. However a configuration is spelled
  (bare, in either quotes, with comments), it is read back if and only if no word is one of these
  (`NginxRoundTrip.RoundTrip`).
- openssl.cnf: the docstring says later values win, but a second `.include` of a file is dropped, so a value
  between the two survives (`OpensslInlining.SecondIncludeDropped`). The text read is the plainly inlined one if and
  only if plain inlining meets no path twice and stays within the depth limit (`OpensslInlining.ReadIsInliningIff`);
  the findings are those of plain inlining whenever nothing is cut off, as where no include error is reported.
- sshd_config: `kex_uncertain` never misses a dependency. Something unread can change the value if and only if, before
  the first KexAlgorithms, an unreadable file is met or an unlistable directory above the depth limit
  (`SshdUncertainty.UncertainIffDependent`); a directory at the limit sets the flag needlessly
  (`SshdUncertainty.DirectoryAtDepthLimit`). With a directory held to what its pattern matches, this stays true where
  each such pattern matches some file that was not read (`SshdUncertainty.UncertainOfMatches`).
- Certificates: the full parse does not check the tag of the key's algorithm OID and the OID-only walk does. On
  what the full parse accepts that is the only way they part (`CertificateWalk.WalkAgreesWithParse`,
  `CertificateWalk.MistaggedKeyParsesOnly`); the walk also accepts much that the full parse refuses.
- A UTCTime whose first two characters are no number to Python's `int` makes the full parse fail with a plain
  ValueError: on any bytes without an over-long OID arc, exactly where everything up to the validity reads and such a
  time is the first not accepted (`CertificateErrors.RaisesIffNoYear`). One such certificate in an EFI signature database ends
  `parse_signature_lists`, whose docstring promises errors that are reported rather than raised
  (`SignatureLists.RaisesIffBadYear`, `SignatureLists.BadYearReportsNothing`).
- The other source of that error is an OID arc with more decimal digits than Python writes out, 4300 unless set
  otherwise, in both certificate readers (`CertificateErrors.SomeArcIsTooLong`, `CertificateFields.LayoutRaisesIff`,
  `CertificateWalk.WalkIsExact`).
- IKE: the two dialects read alike if and only if no word holds `-` or `=` and no word for the primary exchange looks
  like `ke1_...` (`IkeDialects.DialectsAgree`). `ml-kem-768` is a known word and has a `-`: strongSwan's
  `ke1_ml-kem-768` fills nothing (`IkeDialects.HyphenatedWord`).
- Path resolution answers as a system booted from the root if and only if it takes no `.`, `..` or last `/` behind what
  is no directory, no link without a target and no empty path, or ends where there is no node
  (`PathMissing.StatIsAnswer`, `PathMissing.ExistsIffFound`): for `/m/../x` without `/m` it finds `/x`
  (`PathMissing.MissingNameIsSkipped`), and so it does for `/x/` and for a link to `x/` where `/x` is a file
  (`PathMissing.LastSlashIsDropped`).
- Berkeley DB: the 32 `spares` could be indexed out of range only in a file of 2^40 bytes or more
  (`BerkeleyDbImage.SparesStayInRange`); the model keeps that IndexError as an outcome of its own.

## Model

| member | source | states |
|---|---|---|
| PathResolver.ResolveInRoot | pqc_readiness/_platform.py:90-120 | the pending/done loop ends on every link map, cyclic ones included, and computes `Resolve`; it asks the system exactly about the recorded probes |
| PathResolver.ProbeSees | pqc_readiness/_platform.py:109-119 | the system's own lookup of a candidate finds the node below the root, sees a link iff that node is one, and passes nothing outside the tree |
| PathResolver.TurnKeeps | pqc_readiness/_platform.py:101-119 | each turn keeps `done` free of links, ".", ".." and "", and its probe is direct and confined |
| PathResolver.RunIsConfined | pqc_readiness/_platform.py:90-120 | over whole runs every probed path is the root plus entry names with no link among its proper prefixes, its lookup never leaves the tree, and no prefix of the result is a link |
| PathResolver.AgreesWithBooted | pqc_readiness/_platform.py:90-120 | wherever the kernel of a system booted from the root finds something, the resolver ends at the same node with the same budget left, or both run out of links |
| PathResolver.ResolveAppend | pqc_readiness/_platform.py:98-120 | resolving xs ++ ys is resolving ys from the state xs leaves |
| PathResolver.MoreBudget | pqc_readiness/_platform.py:90-120 | a result stays the same under every larger link budget |
| PathResolver.ResolvedIsFixed | pqc_readiness/_platform.py:98-120 | resolving a resolved path again gives it back without following a link |
| PathMissing.AnswersForBooted | pqc_readiness/_platform.py:98-120 | on every tree and from every state of a run, a booted system finds nothing where the run takes a ".", a ".." or a last "/" behind what is no directory, or a link without a target; everywhere else its lookup is exactly the resolver's answer, absent where that names no node |
| PathMissing.StatIsAnswer | pqc_readiness/_platform.py:90-120 | the same of a whole call, the empty path included, which names nothing; where no text holds "." or "..", ends in "/" or is empty, the run never slips |
| PathMissing.ExistsIffFound | pqc_readiness/_platform.py:90-120 | what a call resolves to exists iff the booted lookup finds it, unless the path is empty or the run slips so, and comes to a node all the same |
| PathMissing.MissingStays | pqc_readiness/_platform.py:109-119 | behind a missing name every component is taken for a name, as long as the run does not slip |
| PathMissing.MissingNameIsSkipped | pqc_readiness/_platform.py:105-119 | a concrete tree where the booted system finds nothing and the resolver a file |
| PathMissing.LastSlashIsDropped | pqc_readiness/_platform.py:98-120 | so do the path "/x/" and a link to "x/" where "/x" is a file |
| HostTree.ComponentsOfJoin | pqc_readiness/_platform.py:98-120 | splitting what was joined with "/" gives the components back |
| HostTree.WalkAppend | pqc_readiness/_platform.py:90-120 | the kernel's lookup, and all it visits, of a path's start and then of its rest is that of the path |
| NginxSyntax.ScanQuoted | pqc_readiness/detect/config_services_parsers.py:246-257 | the quoted-text loop strictly advances and computes text, rest and line, escapes included |
| NginxSyntax.Turn | pqc_readiness/detect/config_services_parsers.py:233-263 | every turn of the tokenizer advances, yields at most one token, and leaves the tokens of the rest |
| NginxSyntax.NginxTokens | pqc_readiness/detect/config_services_parsers.py:230-264 | the tokenizer ends on every text and computes `Tokens` |
| NginxSyntax.NginxStatements | pqc_readiness/detect/config_services_parsers.py:267-303 | the recursive parser advances, ends on every token list and computes statements and end position |
| NginxRoundTrip.LinesAreRight | pqc_readiness/detect/config_services_parsers.py:230-264 | on every text a token's line is one more than the newlines up to its end, those in comments, quotes and escapes included |
| NginxSpelling.SpelledReads | pqc_readiness/detect/config_services_parsers.py:230-264 | however a text is spelled (bare words, both quotes with escapes, comments, white space, unclosed quotes), it is read as the tokens meant, each with its line |
| NginxSpelling.EveryTextIsSpelled | pqc_readiness/detect/config_services_parsers.py:230-264 | every text is spelled in some such way, so the tokenizer is determined on all of them |
| NginxRoundTrip.ParseAll | pqc_readiness/detect/config_services_parsers.py:267-303 | parsing the tokens of a configuration gives its tree back, blocks at any depth |
| NginxRoundTrip.ParsedIsClean | pqc_readiness/detect/config_services_parsers.py:267-303 | no parse ever yields a word that is punctuation |
| NginxRoundTrip.RoundTrip | pqc_readiness/detect/config_services_parsers.py:230-303 | every spelling of a configuration reads as the same tree iff no word is exactly "{", "}" or ";" |
| NginxRoundTrip.StatementsAreFrom | pqc_readiness/detect/config_services_parsers.py:267-303 | on every token list, each statement has its name, line and arguments from a run of words behind punctuation |
| SshdConfig.Parser.Skip | pqc_readiness/detect/config_sshd.py:130-135 | a skipped file is listed, and raises the flag iff KexAlgorithms is not set yet |
| SshdConfig.Parser.Walk | pqc_readiness/detect/config_sshd.py:137-176 | the recursive walk replays the text with every Include inlined; it returns False iff a Match line ended it |
| SshdConfig.Parser.WalkLines | pqc_readiness/detect/config_sshd.py:150-176 | the loop over the lines of a file, ended by a Match line |
| SshdConfig.Parser.Set | pqc_readiness/detect/config_sshd.py:172-175 | what a directive does to values and host keys |
| SshdConfig.Parser.Include | pqc_readiness/detect/config_sshd.py:159-171 | the loop over the patterns of an Include line, unlistable directories included |
| SshdConfig.Parser.IncludePaths | pqc_readiness/detect/config_sshd.py:168-170 | the loop over the files of one pattern, stopping at a Match line |
| SshdConfig.ParseSshdConfig | pqc_readiness/detect/config_sshd.py:109-186 | all findings are those of the inlined text |
| SshdUncertainty.FirstValueWins | pqc_readiness/detect/config_sshd.py:174-175 | each of the two keywords has the value of its first non-empty directive in the inlined text, others none |
| SshdUncertainty.ListsAreInOrder | pqc_readiness/detect/config_sshd.py:109-186 | host keys, files and skips are listed in the order met, and the Match flag is set iff a Match line is met |
| SshdUncertainty.MatchEndsFile | pqc_readiness/detect/config_sshd.py:156-158 | the first Match line, in whatever file, ends the reading of all files |
| SshdUncertainty.IncludeMeans | pqc_readiness/detect/config_sshd.py:159-171 | an Include is the files of its patterns in turn, relative ones below /etc/ssh/, unlistable ones skipped |
| SshdUncertainty.DepthLimit | pqc_readiness/detect/config_sshd.py:137-142 | files are read down to the sixteenth level and not at the seventeenth |
| SshdUncertainty.UncertainMeansSkipped | pqc_readiness/detect/config_sshd.py:130-135 | the flag is set iff something was skipped before the first KexAlgorithms value |
| SshdUncertainty.CertainIsIndependent | pqc_readiness/detect/config_sshd.py:109-186 | without the flag, nothing the walk did not get to see changes the KexAlgorithms value: neither the unreadable files and directories, nor any file or directory it never asked for |
| SshdUncertainty.UncertainIffDependent | pqc_readiness/detect/config_sshd.py:109-186 | on every host, something unseen can change the value iff an unreadable file, or an unlistable directory above the depth limit, is met before the first KexAlgorithms value; the flag is set iff anything is skipped before it |
| SshdUncertainty.UncertainOfMatches | pqc_readiness/detect/config_sshd.py:159-168 | a directory listing only what its pattern matches, the value can change if such a skip could bring in an unread file, and only if there is such a skip; an iff where each pattern matches some unread file |
| SshdUncertainty.DirectoryAtDepthLimit | pqc_readiness/detect/config_sshd.py:140-142 | a concrete chain of includes where the flag is set although nothing could change the value |
| Sorting.OrderForgotten | pqc_readiness/detect/config_openssl.py:132-134 | sorting forgets the order a listing came in |
| Sorting.OrderMeans | pqc_readiness/detect/config_openssl.py:132-134 | a prefix sorts first, otherwise the first character that differs decides |
| OpensslConfig.Parser.Load | pqc_readiness/detect/config_openssl.py:120-168 | the recursive loader replays the expanded text onto the parser's state, remembers the paths met and returns the section in force |
| OpensslConfig.Parser.LoadNames | pqc_readiness/detect/config_openssl.py:131-134 | the loop over a directory's .cnf and .conf files, in sorted order |
| OpensslConfig.Parser.LoadLines | pqc_readiness/detect/config_openssl.py:146-168 | the loop over a file's lines, the current section threaded through includes and back |
| OpensslConfig.ParseOpensslCnf | pqc_readiness/detect/config_openssl.py:100-176 | all findings are those of the expanded text, on cyclic include graphs too |
| OpensslInlining.LastValueWins | pqc_readiness/detect/config_openssl.py:157-167 | each key has the last value given while its section was in force, and the sections are exactly those named |
| OpensslInlining.ListsAreInOrder | pqc_readiness/detect/config_openssl.py:120-176 | files, errors and unreadable entries are listed in the order met |
| OpensslInlining.DirectoryMeans | pqc_readiness/detect/config_openssl.py:131-134 | a directory stands for its names ending in .cnf or .conf, each as often as listed, sorted |
| OpensslInlining.DirectoryPath | pqc_readiness/detect/config_openssl.py:134 | just the directory's last slashes are dropped before "/" and the name |
| OpensslInlining.DepthLimit | pqc_readiness/detect/config_openssl.py:120-124 | files are read down to the eighth level and not at the ninth |
| OpensslInlining.NoFileTwice | pqc_readiness/detect/config_openssl.py:121-124 | no path is read twice, on any include graph |
| OpensslInlining.InliningIffNothingCut | pqc_readiness/detect/config_openssl.py:120-168 | no include is cut off iff plain inlining meets no path twice within the depth limit; the text read is then the inlined one |
| OpensslInlining.ReadIsInliningIff | pqc_readiness/detect/config_openssl.py:120-168 | the text read equals plain inlining, of a depth that is complete, iff plain inlining meets no path twice within the depth limit |
| OpensslInlining.NothingCutMeansInlined | pqc_readiness/detect/config_openssl.py:100-176 | when nothing is cut off, whatever errors are reported, the findings are those of plain inlining |
| OpensslInlining.NoErrorsMeansInlined | pqc_readiness/detect/config_openssl.py:100-176 | when no include error is reported, the findings are those of plain inlining |
| OpensslInlining.SecondIncludeDropped | pqc_readiness/detect/config_openssl.py:121-123 | a concrete file whose second include is dropped: the value read is "1", that of plain inlining "2" |
| OpensslInlining.ListingOrderForgotten | pqc_readiness/detect/config_openssl.py:132-134 | the order in which the system lists directories changes nothing |
| RpmHeader.ParseRpmHeader | pqc_readiness/detect/packages.py:247-284 | the decoder loop stays inside the blob and computes `Parse` on arbitrary bytes |
| RpmHeader.ParseUndoesEncode | pqc_readiness/detect/packages.py:247-284 | an encoded header, with any padding and trailing bytes, reads as what its fields say by tag and type number; it is refused iff empty, too large or without name or version |
| RpmHeaderExact.ReadsExactlyHeaders | pqc_readiness/detect/packages.py:247-284 | on any bytes, this package is found iff they are laid out as a header whose index entries, wherever they point, say just that of the data, each read entry inside it, name and version included |
| Adler32.ChecksumMeans | pqc_readiness/detect/packages.py:627-628 | the two sums of section 2.2 of RFC 1950 in closed form, plain and weighted, modulo 65521 |
| Adler32.DetectsOneByte | pqc_readiness/detect/packages.py:627-628 | changing any one byte changes the checksum of section 2.2 of RFC 1950 |
| Ndb.IterNdbBlobs | pqc_readiness/detect/packages.py:587-629 | the generator computes `Read` on arbitrary bytes |
| Ndb.IterSlots | pqc_readiness/detect/packages.py:609-629 | its loop yields the blobs of the slots up to the first bad one |
| NdbImage.RegionDetects | pqc_readiness/detect/packages.py:618-628 | changing one byte anywhere in an accepted block region makes it refused |
| NdbImage.OneByteIsDetected | pqc_readiness/detect/packages.py:587-629 | with zlib, changing any one byte of the blocks of a stored entry of an image makes the whole read fail |
| NdbImage.ReadsExactlyImages | pqc_readiness/detect/packages.py:587-629 | the read reaches the end yielding vs iff the file is an ndb image, laid out byte by byte with less than a block of padding per entry, whose live slots store vs in slot order |
| NdbImage.ImageReads | pqc_readiness/detect/packages.py:609-629 | every image reads back as its blobs in slot order |
| BerkeleyDb.ReadOverflow | pqc_readiness/detect/packages.py:525-546 | the overflow loop ends on every file and yields `total` bytes or nothing |
| BerkeleyDb.ReadItem | pqc_readiness/detect/packages.py:548-557 | an item is read in place or from its overflow chain, other types refused |
| BerkeleyDb.ReadPairs | pqc_readiness/detect/packages.py:573-583 | the pair loop accepts only items that tile the page's tail and yields the values of package keys |
| BerkeleyDb.ReadChain | pqc_readiness/detect/packages.py:561-584 | the chain loop ends on every file, loops detected across all buckets |
| BerkeleyDb.IterBdbHashValues | pqc_readiness/detect/packages.py:492-584 | the generator computes `Read` on arbitrary bytes |
| BerkeleyDb.Overflow | pqc_readiness/detect/packages.py:525-546 | what an overflow chain yields has exactly the bytes asked for |
| BerkeleyDbImage.SparesStayInRange | pqc_readiness/detect/packages.py:505-561 | in a file below 2^40 bytes `spares` is never indexed out of range |
| BerkeleyDbImage.NoPageTwice | pqc_readiness/detect/packages.py:559-565 | on any file no hash page is read twice across all buckets |
| BerkeleyDbLayout.DatabaseReads | pqc_readiness/detect/packages.py:492-584 | every laid-out database reads back as its values |
| BerkeleyDbLayout.ReadIsDatabase | pqc_readiness/detect/packages.py:492-584 | every file that reads to the end is such a database |
| BerkeleyDbLayout.ReadsExactlyDatabases | pqc_readiness/detect/packages.py:492-584 | the read reaches the end yielding vs iff the file is a hash database with acyclic, disjoint bucket chains and acyclic overflow chains, every field laid out byte by byte, whose values under keys of four bytes not all 0 are vs in bucket, chain and slot order |
| BerkeleyDbReach.UnreachableIsIrrelevant | pqc_readiness/detect/packages.py:492-584 | any two files, corrupt ones included, that agree on the meta page and on the pages the read of one touches read alike |
| BerkeleyDbReach.OnlyReachMatters | pqc_readiness/detect/packages.py:492-584 | in a hash database these are the meta page and the pages some bucket reaches |
| RpmDatabase.DecodeBlobs | pqc_readiness/detect/packages.py:661-667 | the loop over the blobs yields every wanted package, or nothing once a header is bad |
| RpmDatabase.ReadRpmdbBlobs | pqc_readiness/detect/packages.py:645-674 | the whole read computes `ReadDatabase` with either reader |
| RpmDatabase.NamedIsFiltered | pqc_readiness/detect/packages.py:663-667 | a read with names is the filter of the full read and fails exactly when that does |
| RpmDatabase.AllOrNothing | pqc_readiness/detect/packages.py:659-674 | packages come back iff the reader reached the end, yielded something and every blob parsed; then one per blob, in order; the IndexError surfaces iff every blob before it parsed |
| RpmDatabase.NdbEndToEnd | pqc_readiness/detect/packages.py:587-674 | an ndb image of encoded headers reads as exactly those packages in slot order |
| RpmDatabase.BdbEndToEnd | pqc_readiness/detect/packages.py:492-674 | so does a Berkeley DB database, in bucket, chain and slot order |
| Der.ReadTlv | pqc_readiness/detect/certs.py:79-102 | an element that reads strictly advances and lies inside its container |
| Der.ReadInvertsEncode | pqc_readiness/detect/certs.py:79-102 | reading inverts definite-length encoding (section 8.1.3 of X.690) for every form and value below 2^32 bytes |
| Der.ReadMeansEncoded | pqc_readiness/detect/certs.py:79-102 | nothing but a definite-length encoding is read |
| Der.ReadOid | pqc_readiness/detect/certs.py:105-120 | the arc loop computes `DecodeOid` |
| Der.DecodeInvertsEncode | pqc_readiness/detect/certs.py:105-120 | decoding inverts base-128 encoding (section 8.19 of X.690) for every arc list with a one-byte first octet |
| Der.EncodeInvertsDecodeIffMinimal | pqc_readiness/detect/certs.py:105-120 | encoding what was decoded gives the same bytes iff no arc was padded |
| Certificates.AttributeLoop | pqc_readiness/detect/certs.py:261-275 | the loop over one RDN advances, ends and collects its attributes |
| Certificates.NameLoop | pqc_readiness/detect/certs.py:253-278 | so does the loop over the RDNs of a name |
| Certificates.ExtensionLoop | pqc_readiness/detect/certs.py:328-345 | the extension loop advances, ends and computes the extension map |
| Certificates.TailLoop | pqc_readiness/detect/certs.py:400-406 | the loop behind the key keeps the last extensions field |
| Certificates.ParseCertificateFields | pqc_readiness/detect/certs.py:360-428 | the full parse from these loops, with its value, its DERError or its plain ValueError |
| Certificates.CategoryMeans | pqc_readiness/detect/certs.py:61-72 | hybrid_composite iff either OID is 1.3.6.1.5.5.7.6.37 to .54; pure_pqc iff neither is and one is 2.16.840.1.101.3.4.3.17 to .31; classical iff none is |
| Bytes.BitLengthIs | pqc_readiness/detect/certs.py:298-299 | a key size is the number of binary digits of the modulus |
| CertificateWalk.WalkAgreesWithParse | pqc_readiness/detect/certs.py:135-155 | when the full parse succeeds, the walk does iff the key's algorithm element is tagged as an OID, with the same OIDs, whose ranges give the category |
| CertificateWalk.WalkIsExact | pqc_readiness/detect/certs.py:135-155 | on every certificate of section 4.1 of RFC 5280 the walk returns the signature and key OIDs, whatever the rest holds; it raises iff one of the two cannot be written out, and refuses a key algorithm not tagged as an OID |
| CertificateWalk.MistaggedKeyParsesOnly | pqc_readiness/detect/certs.py:306-309 | a concrete certificate that parses but does not walk |
| CertificateWalk.BadYearRaises | pqc_readiness/detect/certs.py:281-295 | a concrete certificate whose UTCTime starts with "XX" makes the full parse raise a plain ValueError |
| CertificateFields.NameReads | pqc_readiness/detect/certs.py:253-278 | a name reads as exactly its attributes, in order, and raises iff the type of one cannot be written out |
| CertificateFields.LastExtensionWins | pqc_readiness/detect/certs.py:328-345 | the last extension with an id is the one kept |
| CertificateFields.TailReads | pqc_readiness/detect/certs.py:400-406 | the extensions are those of the last extensions field |
| CertificateFields.IsCaMeans | pqc_readiness/detect/certs.py:348-357 | basicConstraints marks a CA iff its SEQUENCE starts with a non-zero BOOLEAN |
| CertificateFields.KeyReads | pqc_readiness/detect/certs.py:302-325 | the key reads as its OID and the catalogue's name and size, those of its curve, or the size of its modulus, keys without either included; it raises where one of its OIDs cannot be written out |
| CertificateFields.ParseIsExact | pqc_readiness/detect/certs.py:360-428 | every laid-out certificate parses as exactly what it says; it fails exactly where a time, basicConstraints or an OID's dotted form does, in the order they are read |
| CertificateExact.ReadsExactlyCertificates | pqc_readiness/detect/certs.py:360-428 | on any bytes, the full parse gives this certificate iff they are laid out as one that says just that |
| CertificateExact.WalksExactlyCertificates | pqc_readiness/detect/certs.py:135-155 | on any bytes, the walk finds these OIDs iff they are laid out as a certificate with them, both tagged as OIDs |
| CertificateExact.CaIsExact | pqc_readiness/detect/certs.py:348-357 | on any bytes, what basicConstraints says: a CA iff its SEQUENCE starts with a BOOLEAN that is not zero, no CA iff there is none, and refused otherwise |
| CertificateFields.LayoutRaisesIff | pqc_readiness/detect/certs.py:360-428 | a laid-out certificate raises iff a UTCTime has no number for a year or an OID cannot be written out, and no time is refused before |
| CertificateErrors.RaisesIffNoYear | pqc_readiness/detect/certs.py:360-428 | on any bytes without an over-long arc, the full parse raises the plain ValueError iff the elements up to both times read and the first time not accepted is a UTCTime whose year is no number |
| CertificateErrors.SeparatorIsNoBlank | pqc_readiness/detect/certs.py:281-295 | the year "\x1c5" is no number, though " 5" is: `int` strips less than `str.strip` |
| CertificateErrors.SomeArcIsTooLong | pqc_readiness/detect/certs.py:105-120 | whatever the limit on digits, some well-formed OID raises |
| CertificateTimes.YearMeans | pqc_readiness/detect/certs.py:287-289 | the first two characters are a number iff they are blanks, at most one sign, digits and blanks |
| CertificateTimes.TimeMeans | pqc_readiness/detect/certs.py:281-295 | what each kind of time hands to the calendar, and how every other is refused |
| CertificateTimes.UtcYear | pqc_readiness/detect/certs.py:287-290 | two digits stand for the year from 1950 to 2049 that ends in them (section 4.1.2.5.1 of RFC 5280) |
| CertificateTimes.WritableMeans | pqc_readiness/detect/certs.py:120 | an OID is written out iff every arc is below the power of ten of the limit |
| HostIndex.Index.constructor | pqc_readiness/observations.py:338-344 | an empty index is valid |
| HostIndex.Index.Add | pqc_readiness/observations.py:346-361 | each dictionary goes on listing, for every key, exactly the positions of the hosts filed under it |
| HostIndex.FileUnder | pqc_readiness/observations.py:354-361 | the loop over one host's keys, in whatever order they come |
| HostIndex.Index.Candidates | pqc_readiness/observations.py:490-518 | the dictionary lookups answer as a search over all hosts does |
| HostIndex.TryTiers | pqc_readiness/observations.py:509-518 | the loop over the tiers, with certificate narrowing |
| ObservationJoin.IndexReports | pqc_readiness/observations.py:364-373 | the index built from a stream of reports is valid and holds them in order |
| ObservationJoin.JoinObservations | pqc_readiness/observations.py:572-686 | the join loop computes rows and counters from a linear search |
| JoinLaws.SearchIsExact | pqc_readiness/observations.py:490-518 | the answer is m iff m is what all hosts together call for: a unique host at the strongest tier with any tied to it by name, address, first label or certificate, narrowed by certificate where that decides, or the ambiguous ones, or none |
| JoinLaws.AmbiguousMeansTwo | pqc_readiness/observations.py:509-518 | an ambiguous answer names at least two hosts |
| JoinLaws.PickIsFirst | pqc_readiness/observations.py:521-546 | the listener picked is the first reachable one in the host's own namespace, else the first of all with a note, none iff there is none; the count is of all reachable ones |
| JoinRows.RowsTell | pqc_readiness/observations.py:491-690 | every row: its host by what ties it, the first listener it can have reached, the judgements of its own protocol and their gap state, certificate membership and staleness in either direction |
| JoinRows.CountersCount | pqc_readiness/observations.py:572-690 | statuses, classes, judgement states, gap states and stale rows are numbers of rows with just that property |
| JoinRows.HostCounts | pqc_readiness/observations.py:646-662 | so are a host's endpoints, classes, stale rows and those observed classical although capable or configured |
| JoinLaws.NothingIsLost | pqc_readiness/observations.py:572-686 | status and class counts each sum to the valid records; states, gap states and per-host endpoints each sum to those matched or without a service scan |
| JoinLaws.PerHostIsTally | pqc_readiness/observations.py:646-662 | a host's entry counts exactly its own rows, and exists iff there are any |
| JoinLaws.JoinAppends | pqc_readiness/observations.py:572-686 | the rollup of a ++ b is the sum of both, host by host as well |
| JoinLaws.ReportOrderForgotten | pqc_readiness/observations.py:572-686 | permuting the reports changes no row and no counter |
| FleetRollup.CountKinds | pqc_readiness/aggregate.py:82-87 | each accelerator kind is counted once per host |
| FleetRollup.CountProtocols | pqc_readiness/aggregate.py:99-103 | one state per protocol and host |
| FleetRollup.CountClients | pqc_readiness/aggregate.py:107-111 | client groups per state and the processes they stand for |
| FleetRollup.CountHost | pqc_readiness/aggregate.py:70-114 | the body of the rollup loop |
| FleetRollup.Aggregate | pqc_readiness/aggregate.py:31-140 | one streaming pass computes the counters |
| FleetRollup.RollupAppends | pqc_readiness/aggregate.py:31-140 | the rollup of two fleets together is the pointwise sum, the set of CPU models the union |
| FleetRollup.BreakdownsAddUp | pqc_readiness/aggregate.py:71-103 | every breakdown sums to the number of hosts, the states of each protocol included |
| FleetRollup.CountersCountHosts | pqc_readiness/aggregate.py:82-114 | accelerator, detection and gap counters count hosts, each at most once |
| FleetRollup.BreakdownsCount | pqc_readiness/aggregate.py:70-98 | each breakdown counts the hosts with the value, and replace_required those that need it |
| FleetRollup.ModelsAre | pqc_readiness/aggregate.py:81 | the models are those of the hosts |
| FleetRollup.StatesCount | pqc_readiness/aggregate.py:99-103 | a protocol's counter gives the hosts in each state |
| FleetRollup.ServicesCount | pqc_readiness/aggregate.py:104-111 | services, client groups and their processes are summed over the hosts, state by state |
| IkeProposal.FillIsFirstMentions | pqc_readiness/detect/protocols_ike.py:140-147 | a slot holds its methods once each, in order of first mention |
| IkeProposal.FillNonempty | pqc_readiness/detect/protocols_ike.py:140-147 | no slot is ever empty, which is all the classifier asks |
| IkeProposal.FillHolds | pqc_readiness/detect/protocols_ike.py:140-147 | a slot holds exactly the methods mentioned for it |
| IkeText.Add | pqc_readiness/detect/protocols_ike.py:140-147 | the alternatives of one value go to one slot |
| IkeText.AddSegment | pqc_readiness/detect/protocols_ike.py:149-167 | one segment: a Libreswan assignment or strongSwan tokens |
| IkeText.AddTokens | pqc_readiness/detect/protocols_ike.py:162-167 | the loop over tokens, those that name a slot told apart |
| IkeText.ParseProposal | pqc_readiness/detect/protocols_ike.py:130-175 | the parser from text to slots: trimming, the loop over segments, "=", "-" and "+" |
| IkeText.TokenMeans | pqc_readiness/detect/protocols_ike.py:162-167 | a token is for the slot 1 to 7 it names with a word behind it, and otherwise as a whole for the primary exchange |
| IkeText.AssignmentMeans | pqc_readiness/detect/protocols_ike.py:153-161 | an assignment is to ke, to addke1 to addke7, or to nothing |
| IkeText.PaddingIsDropped | pqc_readiness/detect/protocols_ike.py:136-154 | white space around a proposal, segment, key or word is dropped, and so are the "!" behind it |
| Text.SpaceMeans | pqc_readiness/detect/protocols_ike.py:103 | white space is just these 29 characters |
| Text.StripPadded | pqc_readiness/detect/protocols_ike.py:103 | stripping takes off just the white space at both ends |
| Text.LowerMeans | pqc_readiness/detect/protocols_ike.py:103 | each letter of the upper alphabet becomes that of the lower one, everything else stays |
| Text.JoinSplit | pqc_readiness/detect/protocols_ike.py:141 | joining the pieces of a split gives the text back |
| IkeDialects.LibreswanReads | pqc_readiness/detect/protocols_ike.py:153-161 | Libreswan's spelling of an offer reads as just its words, each for its slot |
| IkeDialects.StrongSwanReads | pqc_readiness/detect/protocols_ike.py:162-167 | with no "-" or "=" in a word, strongSwan's spelling reads token by token |
| IkeDialects.DialectsAgree | pqc_readiness/detect/protocols_ike.py:130-175 | the two spellings fill the same slots, whatever words are known, iff no word holds "-" or "=" and no primary word looks like a token for another slot |
| IkeDialects.HyphenatedWord | pqc_readiness/detect/protocols_ike.py:99-123 | "ml-kem-768" fills slot 1 in Libreswan's spelling and nothing in strongSwan's |
| IkeProposal.MandatoryMeansSlot | pqc_readiness/detect/protocols_ike.py:204-208 | every negotiation uses ML-KEM iff some slot offers nothing else |
| IkeProposal.PossibleMeansSlot | pqc_readiness/detect/protocols_ike.py:186-203 | some negotiation uses ML-KEM iff some slot offers it |
| IkeProposal.BestIn | pqc_readiness/detect/protocols_ike.py:187-194 | what the classifier takes from one slot |
| IkeProposal.ClassifySlots | pqc_readiness/detect/protocols_ike.py:186-208 | the classifier's loops, in terms of what the slots offer |
| IkeProposal.Classify | pqc_readiness/detect/protocols_ike.py:178-208 | `pqc_mandatory` is that quantifier over all negotiations (section 2.2 of RFC 9370), the category that of a best one |
| Keytab.ReadComponents | pqc_readiness/detect/protocols_kerberos.py:459-463 | the component loop reads its fields inside the record |
| Keytab.ReadRecord | pqc_readiness/detect/protocols_kerberos.py:454-488 | one record, keys skipped by length |
| Keytab.ParseKeytab | pqc_readiness/detect/protocols_kerberos.py:420-489 | the record loop ends on every input and computes `Parse` |
| KeytabLayout.ParseRecovers | pqc_readiness/detect/protocols_kerberos.py:420-489 | a keytab of either version, holes anywhere, reads as exactly its principals, versions and encryption types |
| KeytabLayout.KeysAreIrrelevant | pqc_readiness/detect/protocols_kerberos.py:469-472 | changing only key bytes never changes what is read |
| KeytabExact.ReadsExactlyKeytabs | pqc_readiness/detect/protocols_kerberos.py:420-489 | these entries are found iff the bytes are laid out as a keytab that holds them, a hole that runs past the end included |
| Jks.ReadChain | pqc_readiness/detect/certs_discovery.py:275-277 | the chain loop collects its certificates in order |
| Jks.ParseJksCertificates | pqc_readiness/detect/certs_discovery.py:225-283 | the entry loop ends on every input and computes `Parse` |
| Jks.ParseRecovers | pqc_readiness/detect/certs_discovery.py:225-283 | a keystore with type strings reads as exactly its certificates, in order, and its number of private keys |
| Jks.KeysAreIrrelevant | pqc_readiness/detect/certs_discovery.py:271-274 | neither bytes nor lengths of encrypted keys change what is read |
| JksExact.ReadsExactlyKeystores | pqc_readiness/detect/certs_discovery.py:225-283 | these certificates and this number of keys are found iff the bytes are laid out as a keystore that holds them |
| SignatureLists.ReadEntries | pqc_readiness/detect/protocols_boot.py:171-185 | the entry loop stays inside its list and ends with a report or the uncaught error |
| SignatureLists.ParseSignatureLists | pqc_readiness/detect/protocols_boot.py:144-193 | the list loop stays inside the buffer, ends on every input and computes `Parse`: a report, or none where an error is not caught |
| SignatureLists.RaisesIffEntry | pqc_readiness/detect/protocols_boot.py:171-178 | on any bytes, no report comes back iff some whole X.509 entry of an accepted list makes the certificate parser raise a plain ValueError |
| SignatureLists.RaisesIffBadYear | pqc_readiness/detect/protocols_boot.py:171-178 | without over-long arcs, that is so iff some such entry reads up to its validity and its first time not accepted has no year |
| SignatureLists.BadYearReportsNothing | pqc_readiness/detect/protocols_boot.py:144-193 | one concrete certificate is enough, whatever follows it |
| SignatureLists.EntriesAreWhole | pqc_readiness/detect/protocols_boot.py:162-171 | an accepted list holds as many entries as fit, fewer bytes than one being left over, and is reported partial iff some are |
| SignatureLists.KindsAreCounted | pqc_readiness/detect/protocols_boot.py:171-185 | wherever a report comes back, each field is about the entries of its own type: accepted certificates in order, refused ones, hashes, keys and each other type counted |
| SignatureLists.NothingIsLost | pqc_readiness/detect/protocols_boot.py:144-193 | wherever a report comes back, all counts together number exactly the whole entries of the accepted lists |
| SignatureLists.ParseAppends | pqc_readiness/detect/protocols_boot.py:144-193 | if the walk of a ends at its end, the report of a ++ b is the sum of both, and there is none if either has none |
| SignatureLayout.ReadsExactlyLists | pqc_readiness/detect/protocols_boot.py:144-185 | the walk finds these types and entries, whole ones and leftovers told apart, and stops early or not, iff the bytes are laid out as such lists and a rest that starts no list |
| SignatureLayout.TypesAre | pqc_readiness/detect/protocols_boot.py:73-75 | the three types by the fields of their GUIDs |
| SignatureLayout.GuidIsType | pqc_readiness/detect/protocols_boot.py:99-100 | types are the same iff their GUIDs' texts, field by field, are |

## Left out

- SshdUncertainty.UncertainIffDependent: takes a directory to be able to list any files; `UncertainOfMatches` takes
  the matching (`fnmatch`), itself not modelled, as a parameter.
- SshdUncertainty.UncertainOfMatches: where a pattern matches only files that were read, says that the value may change
  only behind a skip, not whether it can: that hangs on what these files hold and where else they are read.
- CertificateErrors.RaisesIffNoYear: is about bytes no part of which is an OID with an over-long arc;
  `CertificateFields.LayoutRaisesIff` and `SignatureLists.RaisesIffEntry` have no such condition.
- PathResolver.AgreesWithBooted: says nothing where the booted system finds nothing; `PathMissing.AnswersForBooted`
  does, and covers every case.
- PathResolver.RunIsConfined: takes the root to be a path the system resolves to a directory, on a tree that does
  not change during the run.
- IkeDialects.DialectsAgree: is about words without ";", "+", "!" and white space, at which both dialects are cut or
  trimmed alike.
- Jks.ParseRecovers: is about files with certificate type strings, which version-1 files do not have and the reader
  skips in any case.
- Jks.KeysAreIrrelevant: says nothing about truncated files, where a key's length decides how the read fails.
- NdbImage.OneByteIsDetected: is about the blocks of a stored entry; a slot of the table has no checksum.
- BerkeleyDbImage.SparesStayInRange: claims nothing for files of 2^40 bytes or more.
- Files are byte sequences, text is decoded text, directories are functions to listings: system calls, locales, UTF-8
  decoding with replacement, concurrent changes and permission errors other than "unreadable" are not modelled.
- Package and principal names are compared and kept as bytes, before decoding with replacement; a name stored as an
  integer is in no set of names.
- The kernel's limits on the length of names and paths, and permissions, in its path walk.
- Regular expressions: how a line of sshd_config or openssl.cnf is classified is given, and so is what a single
  stripped, lower-case word of an IKE proposal names.
- Case folding beyond ASCII, and the stripping and IP normalisation of names: the index and the join get normalised ones.
- The calendar behind `_der_time`, the RFC 4514 rendering of names and the catalogues of key names and curves are
  parameters, and so is the number of digits Python writes out: no limit on old Pythons, at least 640 on the others.
- SHA-256, base64 and zlib itself: Adler-32 is written out, the presence of zlib is a flag.
- `classify_observed` and the per-host capable and configured judgements are inputs to the join.
- Rendering: sorted dictionaries, JSON, CSV and messages; counters are multisets, error texts are dropped.
- Version-1 keytabs are read in the byte order of the scanning machine, a parameter here.
- Python's recursion limit in the nginx parser and memory limits everywhere.
- The sqlite package backend, rpm and keytool command lines, the other service parsers, benchmarks, catalogues,
  thresholds, recommendations and the command line: foreign calls, or members that would only add easy ones.
