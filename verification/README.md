# A verified model of the certificate, codec, receive-path and provisioning code

This project models, in Dafny, the algorithmic cores of an IoT cellular library:

- **Certificates** (`src/cryptoauthlib/lib/atcacert/`). A secure element stores a 72-octet compressed
  certificate and a few public values. The library plans which regions of the element to read, splices
  what it reads into a certificate template, signs it with a signature of variable length, and keeps the
  outer DER length correct. The model follows the code down to buffers and offsets, and proves what the
  finished certificate is.
- **Codecs**: DER lengths, INTEGERs and ECDSA signature values, five date formats and the 24-bit date
  packing, and Base64 with selectable rules (`src/cryptoauthlib/lib/atca_helpers.c`). Each decoder is
  proved to undo its encoder, or the exact condition under which it does is, and both are proved against a
  description of the octets that mentions neither.
- **The modem receive path** (`src/sequans_controller.cpp`): an interrupt handler that fills a 512-byte
  ring, parses unsolicited result codes (URCs) byte by byte, erases them from the ring and fires
  callbacks, while the main loop reads, clears, registers and unregisters. Also field extraction from a
  response.
- **The provisioning list** in slot 8 of the secure element (`src/ecc608.cpp`).

Code that changes buffers or fields is modelled by methods over arrays and by two classes
(`CertReader.BuildState`, `RxPath.Controller`); each is proved equal to a function on sequences, and the
theorems are about those functions. A C pointer is an array and an offset, an in/out size is a parameter
and a result, a status code is a `Status` or `Result` value.

`dafny verify dfyconfig.toml` checks everything.

| file | content |
|---|---|
| `Bytes`, `Division`, `BigEndian`, `CStrings` | octets, `memcpy`, C strings, arithmetic |
| `DerLength`, `DerInteger`, `EcdsaSig`, `DerForms` | `atcacert_der.c`; what its octets are |
| `DateText`, `PosixTime`, `PosixDates`, `CertDates`, `DateForms` | `atcacert_date.c`; what its octets are |
| `DeviceLocs` | the planner of device reads |
| `CertDef`, `CertElements`, `CompCert`, `CompForms` | definitions, elements, signature, compressed certificate |
| `CertBuild`, `BuildLaws` | a build as a script of edits, and what every build keeps |
| `CertReader`, `CertDevice` | the build state, the read loop, the size prediction |
| `BuildSuccess` | when a build succeeds, and a definition and device that show it can |
| `CertPlaces`, `CertContents`, `CertSerial` | what a finished certificate contains, octet by octet, in terms of the device |
| `Base64Codec`, `Base64Form` | Base64; its alphabet and bits |
| `UrcTable`, `UrcParser`, `RxModel`, `RxPath` | the receive path, from table to ring |
| `ResponseFields`, `ProvisionList`, `ProvisionForm` | field extraction; the provisioning list and its octets |

Assumptions: a byte arrives only while the ring holds fewer than 512; `readByte`'s emptiness test and its
critical section are one step, its load of the byte is another; `registerCallback` and
`unregisterCallback`, which do not disable interrupts, are one step each; a callback does not touch the
receive path; the device answers every command that stays inside its zone; plain `char` is signed; SHA-1,
SHA-256 and the element transforms are arbitrary functions.

Where the code and its own comments or promises disagree, the model follows the code, and a lemma says so:
the last POSIX second is refused although it is the format's maximal date (`PosixDates.LastSecondRefused`);
an entry of the read plan that grows to 65536 octets is stored as empty (`DeviceLocs.MergeCanLoseEverything`);
a length adjustment can wrap (`DerLength.AdjustmentCanWrap`); unregistering compares prefixes
(`UrcTable.UnregisterCanHitAnother`); erasing a URC leaves one byte queued
(`RxModel.ClearedUrcLeavesOneByte`); `readByte` returns a newer byte and loses the oldest when the ring
fills up before it loads (`RxModel.FullRingLosesByte`); a number of twelve or more characters is judged by
its last eleven (`DateText.StrToUintIff`); a field index past the end, or 255, yields the last field
(`ResponseFields.MissingFieldIff`, `ResponseFields.Index255CanMiss`); a read cut at the end of its zone
shows octets of earlier reads (`CertDevice.FoundForgetsIff`); padding that the writer never set can answer
or trap the provisioning reader (`ProvisionList.AbsentIff`, `ProvisionList.JunkCanLoop`).

## Model

| member | source | states |
|---|---|---|
| DerLength.LengthRoundTrip | src/cryptoauthlib/lib/atcacert/atcacert_der.c:34-141 | Decoding undoes encoding for every 32-bit length, whatever octets follow the field, and consumes exactly the field. |
| DerLength.LengthIsShortest | src/cryptoauthlib/lib/atcacert/atcacert_der.c:34-88 | No field that decodes to a length is shorter than the one the encoder writes. |
| DerLength.ShortestLengthIsCanonical | src/cryptoauthlib/lib/atcacert/atcacert_der.c:34-141 | A decodable field as short as the encoder's is the encoder's own, octet by octet: the DER form is unique. |
| DerLength.EncLength | src/cryptoauthlib/lib/atcacert/atcacert_der.c:34-88 | Reports the field's size, refuses a smaller buffer and leaves it alone, otherwise changes exactly the field's octets; also the size-only call. |
| DerLength.DecLength | src/cryptoauthlib/lib/atcacert/atcacert_der.c:90-141 | Computes the specified decoding, with the same rejections (empty, indefinite, over four octets, truncated). |
| DerLength.AdjustLength | src/cryptoauthlib/lib/atcacert/atcacert_der.c:143-183 | On success the field is replaced in place by one of the same width that decodes to the new length and every other octet is untouched; on every error the buffer is unchanged. |
| DerLength.AdjustCanonicalField | src/cryptoauthlib/lib/atcacert/atcacert_der.c:143-183 | Adjusting a field the encoder wrote succeeds exactly when the new length needs a field of the same width. |
| DerLength.AdjustmentIsExact | src/cryptoauthlib/lib/atcacert/atcacert_der.c:163-172 | A successful adjustment decodes to old plus delta if and only if that sum is below 2^32. |
| DerLength.AdjustmentCanWrap | src/cryptoauthlib/lib/atcacert/atcacert_der.c:163-172 | A concrete field and delta for which the 32-bit sum wraps and the call still succeeds. |
| DerInteger.ContentMeansData | src/cryptoauthlib/lib/atcacert/atcacert_der.c:185-248 | For data of any length the contents octets stand, in two's complement, for the unsigned or signed input value, and their first nine bits are never all equal. |
| DerInteger.ContentIsShortest | src/cryptoauthlib/lib/atcacert/atcacert_der.c:185-248 | Any octet string with the same two's-complement value is longer, or is the contents octets themselves. |
| DerInteger.IntegerRoundTrip | src/cryptoauthlib/lib/atcacert/atcacert_der.c:185-309 | Decoding an encoded INTEGER returns its contents and consumes exactly its octets, whatever follows. |
| DerInteger.EncInteger | src/cryptoauthlib/lib/atcacert/atcacert_der.c:185-248 | Writes tag, length and contents at the place asked for and nothing else, or refuses a small buffer unchanged. |
| DerInteger.DecInteger | src/cryptoauthlib/lib/atcacert/atcacert_der.c:250-309 | Computes the specified decoding, with the same rejections, also when only sizes are wanted. |
| EcdsaSig.SigRoundTrip | src/cryptoauthlib/lib/atcacert/atcacert_der.c:311-558 | Every 64-octet signature comes back unchanged, and the decoder consumes exactly the encoded size. |
| EcdsaSig.SigValue | src/cryptoauthlib/lib/atcacert/atcacert_der.c:311-376 | The encoding has 11 to 75 octets. |
| EcdsaSig.SigValueInjective | src/cryptoauthlib/lib/atcacert/atcacert_der.c:311-558 | Two different signatures have different encodings, neither a prefix of the other. |
| EcdsaSig.DecodeSig | src/cryptoauthlib/lib/atcacert/atcacert_der.c:378-558 | A successful decode consumes no more than its input. |
| EcdsaSig.EncSig | src/cryptoauthlib/lib/atcacert/atcacert_der.c:311-376 | Right size and right octets for disjoint buffers; encoding in place at least eight octets below the raw signature still reports the right size and stays inside it. |
| EcdsaSig.DecSig | src/cryptoauthlib/lib/atcacert/atcacert_der.c:378-558 | Computes the specified decoding into 64 zero-filled octets and touches nothing else. |
| DerForms.LengthOctetsForm | src/cryptoauthlib/lib/atcacert/atcacert_der.c:34-88 | The encoder writes the short form, or 128 plus the number of octets that follow and those octets, and they have the length's value. |
| DerForms.LengthForm | src/cryptoauthlib/lib/atcacert/atcacert_der.c:90-141 | The decoder accepts exactly the strings that begin with such a field of at most four further octets, and answers with its value and size. |
| DerForms.IntegerAccepted | src/cryptoauthlib/lib/atcacert/atcacert_der.c:250-309 | The decoder accepts exactly the strings that begin with tag 2, a length and that many contents octets. |
| DerForms.SigValueForm | src/cryptoauthlib/lib/atcacert/atcacert_der.c:311-376 | The signature is written as tag 3, a length, a zero octet, tag 30 hex, a length, and R and S as INTEGERs with minimal, non-negative contents of their values. |
| DerForms.SigAccepted | src/cryptoauthlib/lib/atcacert/atcacert_der.c:378-558 | The decoder accepts exactly the strings that begin with a BIT STRING of that form, in any DER lengths, whose integers have at most 33 contents octets and the values of R and S. |
| DateText.ParseDigits | src/cryptoauthlib/lib/atcacert/atcacert_date.c:187-250 | Parsing undoes printing for every number that fits its width. |
| DateText.UintToStr | src/cryptoauthlib/lib/atcacert/atcacert_date.c:187-204 | Writes exactly the decimal digits in exactly the width. |
| DateText.StrToUint | src/cryptoauthlib/lib/atcacert/atcacert_date.c:209-250 | Computes the specified number or refusal for a field of any width, the overflow checks at the tenth digit and beyond included. |
| DateText.StrToUintIff | src/cryptoauthlib/lib/atcacert/atcacert_date.c:209-250 | The loop is right about a field (its value if that fits 32 bits, else refusal) exactly when the field has at most eleven characters, or is refused, or has only zeros before the last eleven: beyond that it never looks further left. |
| PosixTime.SecondsOrder | src/cryptoauthlib/lib/atcacert/atcacert_date.c:763-787 | mkgmtime32 before any wrap is strictly increasing in date order, and only then. |
| PosixTime.GmtimeSound | src/cryptoauthlib/lib/atcacert/atcacert_date.c:719-761 | gmtime32 returns a date that exists and whose seconds are the count it was given. |
| PosixTime.CountRoundTrip | src/cryptoauthlib/lib/atcacert/atcacert_date.c:719-787 | mkgmtime32 undoes gmtime32 for every 32-bit count. |
| PosixTime.CalendarRoundTrip | src/cryptoauthlib/lib/atcacert/atcacert_date.c:719-787 | gmtime32 undoes mkgmtime32 for every date that exists. |
| PosixTime.NoWrapUpToLastSecond | src/cryptoauthlib/lib/atcacert/atcacert_date.c:763-787 | The seconds of a date fit 32 bits exactly up to 2106-02-07 06:28:15. |
| PosixTime.PosixFormula | src/cryptoauthlib/lib/atcacert/atcacert_date.c:689-699 | The sum over years equals the leap-day formula of POSIX.1. |
| PosixTime.CalendarForm | src/cryptoauthlib/lib/atcacert/atcacert_date.c:683-718 | The dates that exist are those of the Gregorian calendar from 1970 on, month by month. |
| PosixTime.SecondsForm | src/cryptoauthlib/lib/atcacert/atcacert_date.c:763-787 | The seconds of a date are those of the formula in POSIX.1 section 4.16, from the day of the year. |
| PosixTime.CountMonths | src/cryptoauthlib/lib/atcacert/atcacert_date.c:736-745 | The month loop ends by December, so it never reaches the month whose step is zero. |
| PosixTime.Gmtime32 | src/cryptoauthlib/lib/atcacert/atcacert_date.c:719-761 | The two counting loops compute the specified date. |
| PosixTime.Mkgmtime32 | src/cryptoauthlib/lib/atcacert/atcacert_date.c:763-787 | The accumulating loop computes the specified seconds modulo 2^32, whatever the fields hold. |
| PosixDates.PosixRoundTrip | src/cryptoauthlib/lib/atcacert/atcacert_date.c:789-1017 | An encoded date decodes to itself exactly when it exists; otherwise to some other date that does. |
| PosixDates.LastSecondRefused | src/cryptoauthlib/lib/atcacert/atcacert_date.c:826-860 | The last 32-bit second is a date and a count, yet the encoder refuses it. |
| PosixDates.EncPosixCount | src/cryptoauthlib/lib/atcacert/atcacert_date.c:789-899 | The chain of range checks accepts exactly the specified dates. |
| PosixDates.EncPosix | src/cryptoauthlib/lib/atcacert/atcacert_date.c:901-998 | Four octets in either order, or an error that leaves the buffer alone. |
| PosixDates.DecPosix | src/cryptoauthlib/lib/atcacert/atcacert_date.c:926-1017 | The date of the four octets' count. |
| CertDates.TextRoundTrip | src/cryptoauthlib/lib/atcacert/atcacert_date.c:270-680 | Every date a text encoder accepts is parsed back unchanged, existing or not. |
| CertDates.DateRoundTrip | src/cryptoauthlib/lib/atcacert/atcacert_date.c:41-117 | A date survives its format exactly when the format is text or the date exists. |
| CertDates.MaxDateEncodes | src/cryptoauthlib/lib/atcacert/atcacert_date.c:119-182 | A format's maximal date can be encoded in that format exactly for the text formats. |
| CertDates.EncText | src/cryptoauthlib/lib/atcacert/atcacert_date.c:270-332 | One method for the three text encoders: the specified text, or the error for the first field out of range, with exactly the fields before it written. |
| CertDates.DecText | src/cryptoauthlib/lib/atcacert/atcacert_date.c:334-422 | One method for the three text decoders: digits and separators checked in order. |
| CertDates.EncDate | src/cryptoauthlib/lib/atcacert/atcacert_date.c:41-81 | Dispatch with the size check, also when only the size is asked for. |
| CertDates.DecDate | src/cryptoauthlib/lib/atcacert/atcacert_date.c:83-117 | Dispatch with the size check. |
| CertDates.UnpackPack | src/cryptoauthlib/lib/atcacert/atcacert_date.c:1020-1131 | Unpacking a packed date gives it back to the hour, with its validity. |
| CertDates.PackUnpack | src/cryptoauthlib/lib/atcacert/atcacert_date.c:1020-1131 | Packing unpacked octets gives the same octets exactly when month, day and hour are in range; otherwise it is refused. |
| DateForms.TextForm | src/cryptoauthlib/lib/atcacert/atcacert_date.c:270-680 | A text encoder accepts exactly the years and field ranges of its format, and writes the digits and separators of YYYY-MM-DDThh:mm:ssZ, YYMMDDhhmmssZ or YYYYMMDDhhmmssZ. |
| DateForms.TextAccepted | src/cryptoauthlib/lib/atcacert/atcacert_date.c:334-680 | A text decoder accepts exactly such texts, of any digits, and answers with their numbers, two-digit years standing for 1950 to 2049. |
| DateForms.PosixForm | src/cryptoauthlib/lib/atcacert/atcacert_date.c:789-998 | A POSIX encoder accepts exactly the dates from 1970 up to, not including, the last 32-bit second, and writes their seconds with the right octet first. |
| DateForms.PosixAccepted | src/cryptoauthlib/lib/atcacert/atcacert_date.c:926-1017 | Any four octets decode to the date that exists and has that many seconds. |
| DateForms.PackForm | src/cryptoauthlib/lib/atcacert/atcacert_date.c:1020-1072 | Packing accepts exactly 2000 to 2031 and the field ranges, and its 24 bits are five of year, four of month, five each of day, hour and validity. |
| DateForms.UnpackForm | src/cryptoauthlib/lib/atcacert/atcacert_date.c:1074-1131 | Unpacking takes the same bits apart. |
| DateForms.NothingLater | src/cryptoauthlib/lib/atcacert/atcacert_date.c:119-182 | No date that a text format can express is later than the format's maximal date. |
| DeviceLocs.MergeKeepsDataIffFits | src/cryptoauthlib/lib/atcacert/atcacert_def.c:41-120 | The entry that takes in a location covers it and all it covered before exactly when the merged size fits 16 bits. |
| DeviceLocs.MergeCanLoseEverything | src/cryptoauthlib/lib/atcacert/atcacert_def.c:98-117 | A location of 65535 octets is stored as an entry of none. |
| DeviceLocs.MergeStaysInside | src/cryptoauthlib/lib/atcacert/atcacert_def.c:41-120 | Octet by octet, coverage after any successful merge lies inside the old coverage and the block-rounded location; the list grows by at most one and never past its maximum. |
| DeviceLocs.MergeCovers | src/cryptoauthlib/lib/atcacert/atcacert_def.c:41-120 | When the merged size fits 16 bits, coverage afterwards contains the old coverage and the location. |
| DeviceLocs.MergeStartsAligned | src/cryptoauthlib/lib/atcacert/atcacert_def.c:83-100 | After any successful merge entry starts stay block-aligned exactly unless a lower unaligned raw offset is taken over. |
| DeviceLocs.MergeEndsAligned | src/cryptoauthlib/lib/atcacert/atcacert_def.c:83-117 | When the merged size fits 16 bits, entry ends stay block-aligned. |
| DeviceLocs.MergeJoins | src/cryptoauthlib/lib/atcacert/atcacert_def.c:72-117 | A location joins the first entry of its region that its blocks overlap or adjoin, and changes no other; it becomes a new entry if there is none, and only then can the list be full. |
| DeviceLocs.EntriesOnlyGrow | src/cryptoauthlib/lib/atcacert/atcacert_def.c:122-216 | Whatever an entry covers, it covers after every later merge, as long as those fit 16 bits. |
| DeviceLocs.PlanKeepsIff | src/cryptoauthlib/lib/atcacert/atcacert_def.c:122-216 | A plan loses nothing on the way, each merge covering the location and what its entry covered before, exactly when every merge fits 16 bits. |
| DeviceLocs.LowPlansFit | src/cryptoauthlib/lib/atcacert/atcacert_def.c:122-216 | Every merge of a plan fits 16 bits if every named location, rounded up, ends below 65536. |
| DeviceLocs.PlanIsComplete | src/cryptoauthlib/lib/atcacert/atcacert_def.c:122-253 | When every merge fits 16 bits, a successful plan has, for every location a definition names, an entry that the builder's lookup accepts for it. |
| DeviceLocs.MergeDeviceLoc | src/cryptoauthlib/lib/atcacert/atcacert_def.c:41-120 | The in-place loop computes the specified merge, and an error changes nothing. |
| CertElements.ElementFraming | src/cryptoauthlib/lib/atcacert/atcacert_def.c:1571-1650 | What is set reads back, every disjoint element reads as before, every other octet is unchanged. |
| CertElements.ElementOctets | src/cryptoauthlib/lib/atcacert/atcacert_def.c:1571-1650 | Setting and getting an element succeed exactly for its size inside the certificate, and write and read its octets at its offset, in order. |
| CertElements.SignatureIsSet | src/cryptoauthlib/lib/atcacert/atcacert_def.c:720-817 | After a new signature the certificate is one DER TLV that ends with it, only the header's length field changed before it, and the signature reads back. |
| CertElements.ResignIff | src/cryptoauthlib/lib/atcacert/atcacert_def.c:720-786 | On a well-formed certificate a signature is accepted exactly when it fits the buffer and keeps the length field's width; the result does not depend on the old signature. |
| CertElements.SetCertElement | src/cryptoauthlib/lib/atcacert/atcacert_def.c:1571-1614 | Exactly the element's octets change, or nothing and the right error. |
| CertElements.GetCertElement | src/cryptoauthlib/lib/atcacert/atcacert_def.c:1616-1650 | The element's octets, or the right error. |
| CertElements.SetCertSignature | src/cryptoauthlib/lib/atcacert/atcacert_def.c:720-786 | The buffer's new contents and size are those of the specification; with too small a buffer it reports the size that would do. |
| CertElements.FixCertHeader | src/cryptoauthlib/lib/atcacert/atcacert_def.c:768-783 | Adjusts the length field in place and checks it against the new size. |
| CertElements.GetCertSignature | src/cryptoauthlib/lib/atcacert/atcacert_def.c:788-817 | Decodes the signature element. |
| CompCert.CompCertPieces | src/cryptoauthlib/lib/atcacert/atcacert_def.c:1383-1457 | Setting a compressed certificate leaves its signature, issue date and signer ID in the certificate, each readable as set; the expiry date is the subject of `CompForms.ExpiryIsSet`. |
| CompCert.CollectIff | src/cryptoauthlib/lib/atcacert/atcacert_def.c:1459-1514 | Collecting from any certificate that holds the pieces returns all 72 octets exactly when the reserved octet is zero, the validity bits are the definition's, and the issue date survives its format. |
| CompCert.CompCertRoundTrip | src/cryptoauthlib/lib/atcacert/atcacert_def.c:1383-1514 | Set then get returns the same 72 octets exactly under that condition. |
| CompCert.SetCertCompCert | src/cryptoauthlib/lib/atcacert/atcacert_def.c:1383-1457 | The sequence of checks and writes on the buffer is that of the specification. |
| CompCert.GetCertCompCert | src/cryptoauthlib/lib/atcacert/atcacert_def.c:1459-1514 | The 72 octets of the specification, filled piece by piece. |
| CompCert.SetCertDate | src/cryptoauthlib/lib/atcacert/atcacert_def.c:819-851 | Encodes and stores a date (also the expiry date, lines 893-925). |
| CompCert.GetCertDate | src/cryptoauthlib/lib/atcacert/atcacert_def.c:853-891 | Reads and decodes a date (also the expiry date, lines 927-965). |
| CompCert.SetCertSignerId | src/cryptoauthlib/lib/atcacert/atcacert_def.c:967-1006 | Stores two octets as four upper-case hex digits. |
| CompCert.GetCertSignerId | src/cryptoauthlib/lib/atcacert/atcacert_def.c:1008-1081 | Reads them back, with the same rejections. |
| CompForms.HexForm | src/cryptoauthlib/lib/atcacert/atcacert_def.c:967-1006 | Octets become upper-case hex digits, high nibble first. |
| CompForms.HexAccepted | src/cryptoauthlib/lib/atcacert/atcacert_def.c:1008-1081 | Exactly the hex digits of either case are read back. |
| CompForms.DefinitionForm | src/cryptoauthlib/lib/atcacert/atcacert_def.c:1397-1417 | A compressed certificate is accepted for a definition exactly when octet 69 is its template and chain, octet 70 the code of its serial number source and format version 0. |
| CompForms.ExpiryIsSet | src/cryptoauthlib/lib/atcacert/atcacert_def.c:1383-1457 | After setting, the certificate expires the packed number of years after the packed issue date, to the hour; in a POSIX format exactly if that date exists; with zero years at a date than which its format can express no later one. |
| CompForms.CollectWithout | src/cryptoauthlib/lib/atcacert/atcacert_def.c:1459-1514 | Without issue date and signer ID, collecting gives 2000-01-01, signer 0 and the definition's codes. |
| CertBuild.TwinApply | src/cryptoauthlib/lib/atcacert/atcacert_def.c:336-510 | Two certificates that agree before the signature and whose headers announce their own sizes go on agreeing, and end equal once signed, under any script of edits whose signatures fit. |
| CertBuild.StartIsReady | src/cryptoauthlib/lib/atcacert/atcacert_def.c:296-316 | A started certificate has a header that announces its own size, or can never be signed. |
| CertBuild.SignedEnd | src/cryptoauthlib/lib/atcacert/atcacert_def.c:720-786 | However many edits follow, a signed certificate keeps the size its signature gives it and ends with that signature. |
| BuildLaws.BufferIndependence | src/cryptoauthlib/lib/atcacert/atcacert_def.c:273-534 | Once a build succeeds in some buffer, every buffer at least as large as the finished certificate gives the same certificate, smaller or larger than the template. |
| BuildLaws.BuiltSize | src/cryptoauthlib/lib/atcacert/atcacert_def.c:336-534 | The finished certificate is one DER TLV of signature offset plus encoded signature size, within the maximal size, and its signature is the compressed certificate's. |
| BuildLaws.BuiltHolds | src/cryptoauthlib/lib/atcacert/atcacert_def.c:336-534 | Every element a build writes is in the finished certificate if the definition keeps it apart from what else is written. |
| BuildLaws.RebuiltCompresses | src/cryptoauthlib/lib/atcacert/atcacert_def.c:336-534 | Compressing a rebuilt certificate returns the device's 72 octets exactly when they are recoverable at all. |
| CertPlaces.BuiltShows | src/cryptoauthlib/lib/atcacert/atcacert_def.c:273-534 | For any reads, a finished certificate holds in every place that shares no octet with another exactly what is due there from what the reads say of its source. |
| BuildSuccess.ApplyIff | src/cryptoauthlib/lib/atcacert/atcacert_def.c:336-510 | On a certificate ready to be signed, a whole script of edits succeeds exactly when each edit is acceptable by itself: right size, and a signature that fits and keeps the length field's width. |
| BuildSuccess.EditedIff | src/cryptoauthlib/lib/atcacert/atcacert_def.c:273-510 | A build that comes to a signature or an error gets as far as the serial number exactly when the started template reaches past the signature's place with an equally wide length field and every edit is acceptable. |
| BuildSuccess.IssueDatePacks | src/cryptoauthlib/lib/atcacert/atcacert_def.c:1163-1297 | A date unpacked from a compressed certificate and stored in the certificate's format can be packed again for the serial number's hash exactly when the validity is at most 31 years. |
| BuildSuccess.GenSnIff | src/cryptoauthlib/lib/atcacert/atcacert_def.c:1163-1297 | Generating a serial number succeeds exactly when its source's requirements on sizes, device number and validity are met. |
| BuildSuccess.BuildSucceedsIff | src/cryptoauthlib/lib/atcacert/atcacert_def.c:273-534 | For every serial number source the whole build succeeds exactly when it has room to start, every edit is acceptable and the serial number is possible. |
| BuildSuccess.ExampleCanBeRead | src/cryptoauthlib/lib/atcacert/atcacert_client.c:116-177 | A definition whose serial number is hashed from the public key, as in the shipped ones, and a device that meet all requirements of the laws about reading, and whose certificate can be read into any buffer of 215 octets or more. |
| CertReader.CompEditsApply | src/cryptoauthlib/lib/atcacert/atcacert_def.c:404-421 | The script of edits for a compressed certificate does what setting it does. |
| CertReader.BuildState.Start | src/cryptoauthlib/lib/atcacert/atcacert_def.c:273-334 | The buffer becomes the template, cut if need be, with its length pre-adjusted when that is possible and the authority key identifier set. |
| CertReader.BuildState.FillTemplate | src/cryptoauthlib/lib/atcacert/atcacert_def.c:300-316 | The copy and the adjustment whose result is ignored. |
| CertReader.BuildState.Process | src/cryptoauthlib/lib/atcacert/atcacert_def.c:336-510 | One device read changes the certificate as its script of edits says, and remembers the device's serial number. |
| CertReader.BuildState.ProcessKey | src/cryptoauthlib/lib/atcacert/atcacert_def.c:373-403 | The public key in 64 or padded 72 octets, and its key identifier. |
| CertReader.BuildState.ProcessComp | src/cryptoauthlib/lib/atcacert/atcacert_def.c:404-421 | The compressed certificate, if the read covers it. |
| CertReader.BuildState.ProcessElements | src/cryptoauthlib/lib/atcacert/atcacert_def.c:423-499 | The loop over the further elements and their transforms. |
| CertReader.BuildState.SetKey | src/cryptoauthlib/lib/atcacert/atcacert_def.c:660-692 | Public key and subject key identifier. |
| CertReader.BuildState.Finish | src/cryptoauthlib/lib/atcacert/atcacert_def.c:512-534 | Sets the generated serial number. |
| CertReader.BuildState.GenCertSn | src/cryptoauthlib/lib/atcacert/atcacert_def.c:1163-1297 | The serial number of each source. |
| CertDevice.GetDeviceLocs | src/cryptoauthlib/lib/atcacert/atcacert_def.c:122-216 | Merges all locations the definition names, in order, stopping at the first error. |
| CertDevice.ReadLocForm | src/cryptoauthlib/lib/atcacert/atcacert_client.c:63-114 | A read succeeds exactly for a key location inside the 64 octets or a location that starts inside its zone, and gives the octets there, as many as there are. |
| CertDevice.ReadIsTrue | src/cryptoauthlib/lib/atcacert/atcacert_client.c:63-114 | A read that covers a location inside its zone carries exactly what the device holds there, though a short read leaves old octets behind it. |
| CertDevice.FoundForgetsIff | src/cryptoauthlib/lib/atcacert/atcacert_client.c:88-108 | What a location is found to hold after a read is independent of what the read buffer held before exactly when the location lies inside its key or zone. |
| CertDevice.ReadDeviceLoc | src/cryptoauthlib/lib/atcacert/atcacert_client.c:63-114 | Fills the front of the buffer with what can be read and leaves the rest. |
| CertDevice.LoopIsScript | src/cryptoauthlib/lib/atcacert/atcacert_client.c:151-168 | Interleaving reads and changes succeeds exactly when reading everything first does, with the same certificate. |
| CertDevice.ReadCertIsBuild | src/cryptoauthlib/lib/atcacert/atcacert_client.c:116-177 | Reading a certificate is building it from the planned reads. |
| CertDevice.ReadCertLaws | src/cryptoauthlib/lib/atcacert/atcacert_client.c:116-177 | A certificate read off a device is one DER TLV of the known size, the same in any buffer it fits, and compresses back to what the device holds exactly when that is recoverable. |
| CertDevice.OldReadsAreForgotten | src/cryptoauthlib/lib/atcacert/atcacert_client.c:116-177 | When every named location lies inside its zone, the outcome of reading a certificate, error or octets, does not depend on what the static read buffer held before. |
| CertDevice.SizeIsPredicted | src/cryptoauthlib/lib/atcacert/atcacert_client.c:419-450 | The predicted size is the size of the certificate that reading then gives, at most the maximal size. |
| CertDevice.ReadCertSize | src/cryptoauthlib/lib/atcacert/atcacert_client.c:419-450 | Encoding the signature over its own input buffer still yields signature offset plus encoded size. |
| CertDevice.ReadCertificate | src/cryptoauthlib/lib/atcacert/atcacert_client.c:116-177 | Planning, starting, the loop and finishing compute the specified certificate; without a buffer only the size. |
| CertDevice.ReadAll | src/cryptoauthlib/lib/atcacert/atcacert_client.c:151-168 | The loop over the planned locations with its shared read buffer. |
| CertContents.KeyIsHeld | src/cryptoauthlib/lib/atcacert/atcacert_def.c:373-403 | The public key in a certificate read off a device is the device's: its 64 octets, or octets 4 to 35 and 40 to 71 of a padded slot. |
| CertContents.KeyIdIsHash | src/cryptoauthlib/lib/atcacert/atcacert_def.c:660-692 | The subject key identifier is the SHA-1 hash of 04 and that key. |
| CertContents.CaKeyIdIsHash | src/cryptoauthlib/lib/atcacert/atcacert_def.c:319-331 | The authority key identifier is the SHA-1 hash of 04 and the caller's key. |
| CertContents.StoredSerialIsHeld | src/cryptoauthlib/lib/atcacert/atcacert_def.c:357-371 | A stored serial number is the device's. |
| CertContents.ElementIsHeld | src/cryptoauthlib/lib/atcacert/atcacert_def.c:423-499 | A further element is what the device holds, cut to the element's size, or the result of its one or two transforms in order. |
| CertContents.IssueDateIsHeld | src/cryptoauthlib/lib/atcacert/atcacert_def.c:404-421 | The issue date is the packed one in the definition's format. |
| CertContents.ExpiryIsHeld | src/cryptoauthlib/lib/atcacert/atcacert_def.c:404-421 | The expiry date is the packed issue date moved on by the packed validity, as after setting. |
| CertContents.SignerIsHeld | src/cryptoauthlib/lib/atcacert/atcacert_def.c:404-421 | The signer ID is four upper-case hex digits of octets 67 and 68. |
| CertContents.EndsWithSignature | src/cryptoauthlib/lib/atcacert/atcacert_def.c:720-786 | The certificate ends with the encoded signature, and its header announces what follows in a length field as wide as the template's. |
| CertContents.RestIsTemplate | src/cryptoauthlib/lib/atcacert/atcacert_def.c:296-316 | Every other octet in front of the signature is the template's. |
| CertContents.MaxSizeIsReached | src/cryptoauthlib/lib/atcacert/atcacert_def.c:1742-1780 | No smaller maximal size would do for every signature. |
| CertSerial.HashedSerial | src/cryptoauthlib/lib/atcacert/atcacert_def.c:1199-1290 | A hashed serial number is the front of the SHA-256 digest of the key in the finished certificate, or of device octets 0 to 3 and 8 to 12, and of the certificate's issue date and the validity in 24 bits; in its first octet the top bits are set to 01, which makes it positive and never redundant, or the top bit is cleared, or nothing, as the source says. |
| CertSerial.DeviceSerial | src/cryptoauthlib/lib/atcacert/atcacert_def.c:1182-1189 | A serial number from the device is 40 hex and device octets 0 to 3 and 8 to 12. |
| CertSerial.SignerSerial | src/cryptoauthlib/lib/atcacert/atcacert_def.c:1191-1199 | A serial number from the signer is 40 hex and the signer ID. |
| Base64Codec.RoundTrip | src/cryptoauthlib/lib/atca_helpers.c:643-821 | For every input and every faithful rule set decoding the encoded text gives back the data, and fails only if the caller's buffer is smaller than the data. |
| Base64Codec.FaithfulIff | src/cryptoauthlib/lib/atca_helpers.c:504-578 | All data survive exactly when the rule set is faithful: visible distinct symbols below 0x80, a pad below 0x80 that is none of the 64 characters, whole groups on a line. |
| Base64Codec.ShippedRules | src/cryptoauthlib/lib/atca_helpers.c:43-45 | The three shipped rule sets are faithful. |
| Base64Codec.LinesAt | src/cryptoauthlib/lib/atca_helpers.c:765-772 | Every line but the last has exactly the rule's length and is followed by CR LF. |
| Base64Codec.LinesSize | src/cryptoauthlib/lib/atca_helpers.c:741-752 | The exact size of a text in lines. |
| Base64Codec.EncodedFits | src/cryptoauthlib/lib/atca_helpers.c:741-757 | The text and its terminating zero never exceed the precomputed bound. |
| Base64Codec.CalculatedIsEnough | src/ecc608.cpp:277-294 | A buffer of the calculated size is never too small under the default rules, and the certificate decodes back. |
| Base64Codec.EncodeBase64 | src/cryptoauthlib/lib/atca_helpers.c:721-821 | The text of the specification, terminated, nothing written past the bound; errors change nothing. |
| Base64Codec.PutText | src/cryptoauthlib/lib/atca_helpers.c:762-805 | The loop by three octets writes the text in lines. |
| Base64Codec.PutGroup | src/cryptoauthlib/lib/atca_helpers.c:774-804 | One group of four characters, with pads. |
| Base64Codec.StripText | src/cryptoauthlib/lib/atca_helpers.c:807-817 | Strips trailing zeros and terminates the text. |
| Base64Codec.DecodeBase64 | src/cryptoauthlib/lib/atca_helpers.c:643-718 | The character loop computes the specified decoding: blanks skipped, foreign characters and characters after the padding refused. |
| Base64Codec.FinishDecode | src/cryptoauthlib/lib/atca_helpers.c:700-715 | A last group without its pads is completed; a single character is refused. |
| Base64Codec.DecodeBlock | src/cryptoauthlib/lib/atca_helpers.c:580-631 | Appends the one to three octets of a block if they fit. |
| Base64Form.FlatForm | src/cryptoauthlib/lib/atca_helpers.c:542-578 | The text without line breaks: its k-th character is the one RFC 4648 gives the k-th six bits of the data, extended with zero bits, then the pads. |
| Base64Form.EncodedForm | src/cryptoauthlib/lib/atca_helpers.c:721-821 | Every character of an encoded text, at every index: lines of the rule's length, CR LF between them, and those symbols. |
| Base64Form.EncodeAccepts | src/cryptoauthlib/lib/atca_helpers.c:735-757 | The encoder accepts exactly lines of whole groups and a buffer for the text, its breaks and a zero. |
| Base64Form.DecodeForm | src/cryptoauthlib/lib/atca_helpers.c:643-718 | The decoder accepts exactly the texts that spell, blanks aside, some sextets with all, some or none of their pads, and answers with the whole octets among their bits. |
| Base64Form.SextetsDecode | src/cryptoauthlib/lib/atca_helpers.c:643-718 | In particular a text that spells the sextets of some data decodes to that data. |
| UrcTable.RunRefines | src/sequans_controller.cpp:991-1117 | For every sequence of calls over identifiers of which none begins with another, the table is a map with room for ten: registering fails only when the identifier is new and the table full (or it is too long), unregistering removes exactly its identifier. |
| UrcTable.RegisterRefines | src/sequans_controller.cpp:991-1053 | Registering any identifier is registering it in the map, whatever stale bytes the slots hold; the empty identifier is stored but can never be found. |
| UrcTable.UnregisterIff | src/sequans_controller.cpp:1099-1116 | Unregistering removes exactly its identifier if and only if the first slot beginning with it is its own, or is stale while it is not registered. |
| UrcTable.UnregisterCanHitAnother | src/sequans_controller.cpp:1099-1116 | A concrete pair of identifiers for which the wrong callback is removed. |
| UrcTable.LookupFinds | src/sequans_controller.cpp:329-337 | The interrupt's search finds exactly the registered identifiers; an inactive slot never matches. |
| UrcTable.RegisterCallback | src/sequans_controller.cpp:991-1053 | The two loops: override first, then the first free slot. |
| UrcTable.UnregisterCallback | src/sequans_controller.cpp:1073-1117 | The prefix comparison over all slots. |
| UrcParser.FeedIsScan | src/sequans_controller.cpp:297-415 | From any state, for any stream and with the table changing between bytes, the byte-at-a-time parser fires exactly the callbacks a scanner of the whole stream finds. |
| UrcParser.RegisteredFiresOnce | src/sequans_controller.cpp:297-415 | '+', an identifier of 1 to 28 characters registered when its end character (colon or carriage return) arrives, that character, data and a line end fire the callback registered then once with exactly the data, whatever is registered or unregistered before and after, and parsing starts afresh. |
| UrcParser.UnregisteredIsQuiet | src/sequans_controller.cpp:321-370 | An identifier not registered when its end character arrives fires nothing. |
| UrcParser.NextBounded | src/sequans_controller.cpp:297-415 | An identifier never exceeds 28 bytes, data never 384. |
| RxModel.RunConserves | src/sequans_controller.cpp:283-418 | Over every run each received byte is exactly one of taken off by a read, cleared, erased or queued; reads take bytes in arrival order; the parser's buffers stay in bounds. |
| RxModel.ErasesOnlyTheUrc | src/sequans_controller.cpp:340-392 | Erasing takes exactly '+', identifier and end character, or exactly all after the first data byte, or nothing; never a byte that arrived before the current '+', under any interleaving with reads and clears. |
| RxModel.EarlierBytesAreSafe | src/sequans_controller.cpp:283-418 | Over every run, a byte that arrived before the '+' being parsed, or while none was, is never erased afterwards. |
| RxModel.RunFires | src/sequans_controller.cpp:283-418 | Reads, clears and table changes never disturb the parser: every run fires what the scanner finds in the bytes that arrive and the tables in force when they do. |
| RxModel.ClearedUrcLeavesOneByte | src/sequans_controller.cpp:376-392 | Of a whole cleared URC that nobody reads meanwhile, exactly the first byte after the end character stays queued. |
| RxModel.LoadsTheTakenIff | src/sequans_controller.cpp:603-619 | readByte, which loads the byte after its critical section, returns the byte it took off the ring exactly when none of the bytes that arrive in between fills the ring again. |
| RxModel.FullRingLosesByte | src/sequans_controller.cpp:603-619 | A run on a full ring in which readByte returns the newest byte and the oldest is lost. |
| RxPath.Controller.Receive | src/sequans_controller.cpp:283-418 | The handler on ring, buffers and table is one step of the model and calls the callback the model fires; the slot behind the oldest byte is overwritten only by a byte that fills the ring. |
| RxPath.Controller.Push | src/sequans_controller.cpp:288-290 | The masked head index appends to the ring. |
| RxPath.Controller.Parse | src/sequans_controller.cpp:297-415 | The switch over the parser's state. |
| RxPath.Controller.FindSlot | src/sequans_controller.cpp:329-364 | The first slot whose length and bytes are the identifier's. |
| RxPath.Controller.EndIdentifier | src/sequans_controller.cpp:325-366 | The match, the rewinding of the head, the state after it. |
| RxPath.Controller.EndData | src/sequans_controller.cpp:376-403 | The terminated data, the rewinding, the callback. |
| RxPath.Controller.ReadByte | src/sequans_controller.cpp:603-619 | With any bytes arriving between the critical section and the load: -1 on an empty ring, else the byte the taken slot holds by then, as the model says. |
| RxPath.Controller.TakeSlot | src/sequans_controller.cpp:603-616 | The test and the critical section: the slot of the oldest queued byte is taken off the ring, or -1. |
| RxPath.Controller.ClearReceiveBuffer | src/sequans_controller.cpp:594-601 | Everything queued is cleared. |
| RxPath.Controller.Register | src/sequans_controller.cpp:991-1053 | One step of the model. |
| RxPath.Controller.Unregister | src/sequans_controller.cpp:1073-1117 | One step of the model. |
| ResponseFields.ExtractsTheField | src/sequans_controller.cpp:902-989 | Extracting one of the fields f0 to fn yields it exactly when it is shorter than the destination, empty ones included, for every index below 255; for index 255 if and only if field 255 is the last, equals the last, or neither fits. |
| ResponseFields.ExtractsThePicked | src/sequans_controller.cpp:902-989 | Extracting from any fields yields, if it fits, the field at the counter's stop (the index, or the last field for index 255 and past the end) up to its first carriage return. |
| ResponseFields.Index255CanMiss | src/sequans_controller.cpp:944-960 | A response of 257 fields whose field 255 is not what comes back. |
| ResponseFields.ExtractForm | src/sequans_controller.cpp:902-989 | For every response: extraction succeeds exactly when no start character is wanted or it occurs, the first field is wanted or a comma follows, and the field up to its first carriage return is shorter than the destination; it yields that. |
| ResponseFields.NoStart | src/sequans_controller.cpp:921-925 | Without the start character extraction fails. |
| ResponseFields.MissingFieldIff | src/sequans_controller.cpp:944-960 | A field that is not there is refused exactly when there is only one field or the last does not fit; otherwise the last comes back. |
| ResponseFields.SplitOfJoin | src/sequans_controller.cpp:934-960 | Splitting at commas undoes joining fields without commas. |
| ResponseFields.JoinOfSplit | src/sequans_controller.cpp:934-960 | Joining the pieces of any text gives the text back. |
| ResponseFields.ExtractValue | src/sequans_controller.cpp:902-989 | The pointer walk over a local copy computes the specified value; the response is not written. |
| ResponseFields.PickField | src/sequans_controller.cpp:935-972 | The loop with its 8-bit counter finds the specified field. |
| ResponseFields.PutValue | src/sequans_controller.cpp:967-988 | Cuts at the field's end and at a carriage return, and copies if it fits. |
| ProvisionList.WrittenReadsBack | src/ecc608.cpp:63-219 | Whatever the padding holds, reading a type some item has gives the first such item, or stops at an empty item before it. |
| ProvisionList.EveryItemReadsBack | src/ecc608.cpp:63-219 | With distinct non-empty types every item reads back exactly, given room for a terminating zero. |
| ProvisionList.WriteSucceedsIff | src/ecc608.cpp:133-222 | A write, its own check included, succeeds exactly when the padded items fit and each item equals the first of its type; distinct types always do. |
| ProvisionList.AbsentReads | src/ecc608.cpp:63-131 | An absent type is refused if the padding is shorter than a header or begins with an empty one; otherwise reading goes on in the padding. |
| ProvisionList.ZeroPaddingRefuses | src/ecc608.cpp:63-131 | With the rest of the slot zero every absent type is refused. |
| ProvisionList.AbsentIff | src/ecc608.cpp:63-131 | An absent type is refused whatever the padding holds exactly when the padding is shorter than a header. |
| ProvisionList.JunkCanLoop | src/ecc608.cpp:78-126 | Padding on which the search for an absent type never ends. |
| ProvisionList.ReadProvisionItem | src/ecc608.cpp:63-131 | The traversal computes the specified answer and ends, on every slot in which it does not revisit a header. |
| ProvisionList.WriteProvisionData | src/ecc608.cpp:133-222 | Clears the slot, refuses what does not fit, otherwise writes the packed items and returns the check's verdict. |
| ProvisionList.BuildPayload | src/ecc608.cpp:180-196 | The packing loop. |
| ProvisionList.Verify | src/ecc608.cpp:204-219 | The reading-back loop. |
| ProvisionForm.HeaderForm | src/ecc608.cpp:10-33 | A header is a 16-bit word, least significant octet first, of nine bits of offset and seven of type; reading takes the same bits (`HeaderRead`). |
| ProvisionForm.WrittenForm | src/ecc608.cpp:176-202 | After a write each item's data stand behind a header with its type and the place where the next item would begin, one after the other; zeros behind the last block. |
| ProvisionForm.TooLarge | src/ecc608.cpp:172-178 | A list too large for the slot is refused and leaves it cleared. |
| ProvisionForm.ReadForm | src/ecc608.cpp:63-131 | On any slot a read succeeds with some data exactly when a path of headers of other types leads from the front to a header of the wanted type and these are its data. |

## Left out

- DeviceLocs.PlanIsComplete: assumes that every merge fits its entry's 16 bits. That is exact for losing nothing on the way (`PlanKeepsIff`), not for the end of a plan, where a later merge may cover again what an earlier one lost.
- EcdsaSig.EncSig: when the buffers overlap, what is written is not stated, because memcpy has no meaning there; the size and the frame are.
- RxPath.Controller.Receive: requires (as do `Parse` and `EndData`) that data of exactly 384 bytes is not being ended, because the terminating zero would be written behind its buffer.
- ProvisionList.ReadProvisionItem: requires a slot in which the reader does not go round forever; `ReadFrom` says which those are.
- A provisioning header whose next offset is its own plus one gives a data size of 65535, which the model refuses with `ReadError`; with the 16-bit `size_t` the library's own range check (`calib_read.c:317`) wraps and lets that read through. `calib_read.c` is not part of this model.
- CertReader.BuildState.Start: buffers of at least 6 octets; below that the length adjustment reads octets that were never set.
- CertDevice.ReadCertificate: assumes that planned entries fit the 416-octet read buffer, which the code does not check.
- Certificates with a serial number of variable size (`SNSRC_STORED_DYNAMIC`, `atcacert_def.c:1095-1158`) and custom certificate types; no shipped definition uses them.
- Null pointers, except where a null output asks for a size.
- `size_t` and sums of 16-bit fields are unbounded, except in the provisioning reader where its 16-bit wrap-around matters.
- Bit operations on octets are written with division and remainder.
- A failed build or element update leaves the certificate buffer unspecified.
- The three text date encoders and decoders, which differ in year width and separators, are one method each.
- The POSIX and ISO 8601 formats are modelled though the configuration leaves them out (`atca_config.h:95-96`).
- `atcacert_get_device_data`, `atcacert_write_cert`, certificate requests and the to-be-signed digest: more uses of the elements modelled here.
- SHA-1, SHA-256, signing, verifying and the element transforms' bodies: parameters.
- Device errors and the I2C layers below; a read that leaves the zone fails with an unspecified code, shown as `GeneralError` or `ReadError`.
- Timeouts, line state, flow control and AT commands of the modem; logging; MQTT, HTTP and LTE clients.
- `lib_strcasestr` and the hex printing helpers.
