# A verified model of a small BitTorrent client

This project models the core of a command-line BitTorrent client written in C#.
The client:

- reads a `.torrent` file and decodes it from bencoding;
- takes the SHA-1 of the `info` dictionary's original bytes as the info hash;
- lists the peers a tracker returns in compact form;
- performs the 68-byte peer handshake;
- downloads one piece as 16 KiB blocks over the peer wire protocol, then checks the piece against its SHA-1 hash.

The model is written in Dafny and follows the source file by file:

| source file | Dafny files | form |
|---|---|---|
| `src/Bencode.cs` | `bencode_spec.dfy`, `bencode.dfy`, `bencode_facts.dfy` | spec functions; the decoding loops as methods proved equal to them |
| `src/BEncoding.cs` | `bencoding_spec.dfy`, `bencoding.dfy`, `bencoding_facts.dfy` | the older string codec: spec functions, loop methods, a round trip |
| `src/PeerMessage.cs` | `peer_message.dfy` | message values; `Serialize` fills an array in place |
| `src/PieceDownloader.cs` | `piece_blocks.dfy`, `piece_downloader.dfy`, `piece_download_facts.dfy` | a class over a stream object; block requests and copies into the piece array |
| `src/TorrentClient.cs` | `client_codec.dfy`, `torrent_session.dfy`, `torrent_client.dfy`, `torrent_client_facts.dfy` | a class owning the connection and stream fields; the download as spec functions |
| `src/Tracker.cs` | `tracker.dfy` | the textual cut of the `peers` string out of the tracker response |

Shared building blocks live in separate modules:

- `wrappers.dfy`: `Result` and `Option`.
- `bytes.dfy`: bytes, 32- and 64-bit integers with explicit wrap-around, big-endian encodings and `IndexOf`.
- `decimal.dfy`: decimal numerals and the framework's integer parsers.
- `streams.dfy`: a network stream whose incoming bytes are fixed and whose reads and writes are logged in a trace.
- `buffers.dfy`: in-place copies into arrays.

The world outside the program enters as parameters:

- **SHA-1** is a function parameter. Only its 20-byte digest length is assumed.
- **Peers** are represented by the bytes they send, held in `incoming`.
- **The connection** is a boolean saying whether it is made in time.
- **The tracker's answer** is a byte string.
- **The peer id** is a 20-byte argument.

Every stream method states its new cursor and the read or write it appends to the trace. Every method of a class is proved to produce exactly the result, cursor and trace of a spec function. The facts about those functions are proved as lemmas, among them:

- round trips;
- the order of writes and reads on the wire;
- the hash check;
- the downloaded piece for an honest peer.

## Model

| member | source | states |
|---|---|---|
| Bytes.Ascii | src/TorrentClient.cs:143 | ASCII text becomes one byte per character, each equal to its character code |
| Bytes.Zeros | src/TorrentClient.cs:141 | a fresh byte array of n bytes holds only zeros |
| Bytes.Wrap32 | src/TorrentClient.cs:283 | the `(int)` cast keeps the value modulo 2^32 and leaves a value already in range unchanged |
| Bytes.Wrap64 | src/TorrentClient.cs:283 | `long` arithmetic keeps the value modulo 2^64 and leaves a value already in range unchanged |
| Bytes.BigEndian32 | src/PeerMessage.cs:47 | `WriteInt32BigEndian` produces exactly 4 bytes |
| Bytes.ReadWriteBigEndian32 | src/PeerMessage.cs:44-72 | reading back a written big-endian 32-bit integer gives the integer |
| Bytes.WriteReadBigEndian32 | src/PeerMessage.cs:44-72 | writing a read 32-bit integer gives back the same 4 bytes |
| Bytes.BigEndian16 | src/TorrentClient.cs:100-104 | the port is the high byte times 256 plus the low byte, so it is below 65536 |
| Bytes.IndexOf | src/Bencode.cs:174 | `Array.IndexOf` returns -1 or an index inside the array |
| Bytes.IndexOfIsFirst | src/Bencode.cs:174 | -1 exactly when the byte is absent; otherwise the position holds the byte and no earlier position does |
| Bytes.IndexOfCommonPrefix | src/Bencode.cs:174 | the search result depends only on the bytes up to the match |
| Bytes.IndexOfAt | src/Bencode.cs:174 | the first position holding the byte is what `IndexOf` returns |
| Decimal.IsDigit | src/Bencode.cs:164 | no contract of its own: the ASCII digits, the only characters `char.IsDigit` accepts among byte values |
| Decimal.Scan | src/Bencode.cs:179 | no contract of its own: the invariant-culture integer parser, white space, one sign, digits, white space and NULs; its meaning is stated by `Decimal.ScanDigitsValue` and `Decimal.ScanFormatInteger` |
| Decimal.NatDigits | src/BEncoding.cs:37 | a length prints as at least one decimal digit, with a leading zero only for 0 |
| Decimal.FormatInteger | src/BEncoding.cs:36 | an integer prints as a non-empty numeral |
| Decimal.FormatIntegerChars | src/BEncoding.cs:36 | a printed integer holds only '-' and decimal digits |
| Decimal.ParseInteger | src/Bencode.cs:180 | `int.TryParse`/`long.TryParse` succeed only with a value inside the target type's range |
| Decimal.ScanDigitsValue | src/Bencode.cs:180 | a run of digits parses to its decimal value, negated after a '-' |
| Decimal.DigitsValueOfNatDigits | src/BEncoding.cs:37 | printed length digits read back as the length |
| Decimal.ScanFormatInteger | src/BEncoding.cs:61-68 | a printed integer scans back to itself |
| Decimal.ParseFormatInteger | src/BEncoding.cs:61-68 | a printed integer inside the range parses back to itself |
| Streams.Delivered | src/PeerMessage.cs:59 | a read brings the next bytes, as many as asked for or all that are left |
| Streams.Filled | src/PeerMessage.cs:58-59 | the read buffer has the asked-for size and holds the incoming bytes when enough are there |
| Streams.PeerStream.constructor | src/TorrentClient.cs:137 | a new stream has its cursor at 0, an empty trace and is not disposed |
| Streams.PeerStream.Write | src/TorrentClient.cs:147 | a write appends one write event and does not move the read cursor |
| Streams.PeerStream.ReadAsync | src/TorrentClient.cs:151 | a read of up to n bytes fills the buffer, returns the count delivered, advances the cursor and logs the read |
| Streams.PeerStream.ReadExactly | src/TorrentClient.cs:249 | it returns exactly n incoming bytes, or fails at the end of the stream; it advances the cursor and logs the read |
| Streams.PeerStream.ReadByte | src/TorrentClient.cs:257 | it returns the next byte, or -1 at the end of the stream |
| Streams.PeerStream.Dispose | src/TorrentClient.cs:36 | the stream becomes disposed; its cursor and trace are unchanged |
| Buffers.Place | src/PieceDownloader.cs:69 | copying into a buffer keeps its length |
| Buffers.PlaceAt | src/PieceDownloader.cs:69 | after the copy, each byte in the target range comes from the source and every other byte is unchanged |
| Buffers.PlaceTwice | src/PeerMessage.cs:47-51 | two back-to-back copies equal one copy of the concatenation |
| Buffers.PlaceByBytes | src/PieceDownloader.cs:69 | a buffer that agrees byte by byte with a copy is that copy |
| Buffers.CopyInto | src/PieceDownloader.cs:69 | `Buffer.BlockCopy` changes the array to exactly the placed bytes |
| Buffers.WriteInt32BigEndian | src/PeerMessage.cs:47 | the array receives the 4 big-endian bytes at the offset and nothing else changes |
| PeerMessages.WithId | src/PeerMessage.cs:30-35 | a message with an id has length = payload length + 1 and is well formed |
| PeerMessages.KeepAlive | src/PeerMessage.cs:37-42 | the keep-alive has no id, an empty payload and length 0 |
| PeerMessages.Frame | src/PeerMessage.cs:44-54 | no contract of its own: the bytes `Serialize` produces; their layout is `PeerMessages.FrameLayout` and their reading back `PeerMessages.RoundTrip` |
| PeerMessages.FrameLayout | src/PeerMessage.cs:44-54 | the serialized frame is 4 length bytes reading back as the length, then the id and the payload |
| PeerMessages.Serialize | src/PeerMessage.cs:44-54 | the fresh array holds exactly the frame |
| PeerMessages.PlacedHeader | src/PeerMessage.cs:47 | the 4 length bytes written over a 4-byte buffer are the whole buffer |
| PeerMessages.PlacedFrame | src/PeerMessage.cs:47-51 | length, id and payload written in turn fill the buffer with the frame |
| PeerMessages.ReadFrame | src/PeerMessage.cs:56-72 | reading a message never goes past the input, and a message read is well formed |
| PeerMessages.ReadFromStream | src/PeerMessage.cs:56-72 | `ReadFromStreamAsync` gives the spec result, cursor and trace |
| PeerMessages.ReadFrameOfFrame | src/PeerMessage.cs:44-72 | reading a serialized message gives it back and consumes exactly its bytes |
| PeerMessages.HeaderOfFrame | src/PeerMessage.cs:58-60 | the first read of a frame yields its declared length |
| PeerMessages.BodyOfFrame | src/PeerMessage.cs:65-66 | the second read of a frame yields the id and the payload |
| PeerMessages.RoundTrip | src/PeerMessage.cs:44-72 | `ReadFromStreamAsync` of `Serialize` gives the message back, whatever follows it |
| PeerMessages.ZeroLengthIsKeepAlive | src/PeerMessage.cs:62-63 | a zero length reads as the keep-alive after 4 bytes |
| PeerMessages.UncheckedId | src/PeerMessage.cs:68 | any byte is accepted as a message id |
| PeerMessages.CreateInterested | src/PeerMessage.cs:75-76 | the interested message is well formed |
| PeerMessages.InterestedFrame | src/PeerMessage.cs:75-76 | the interested message serializes to 0,0,0,1,2 |
| PeerMessages.RequestPayload | src/PeerMessage.cs:81-84 | a request payload is 12 bytes |
| PeerMessages.CreateRequest | src/PeerMessage.cs:79-86 | a request message has id 6 and the 12-byte payload |
| PeerMessages.RequestPayloadFields | src/PeerMessage.cs:79-86 | the payload's three big-endian words read back as index, begin and length |
| PieceBlocks.NumBlocks | src/PieceDownloader.cs:44 | no contract of its own: `(L + 16383) / 16384` in 32-bit arithmetic; its meaning is `PieceBlocks.NumBlocksCeil` and `PieceBlocks.NumBlocksWraps` |
| PieceBlocks.BlockBegin | src/PieceDownloader.cs:51 | no contract of its own: block i starts at i * 16384 |
| PieceBlocks.BlockLength | src/PieceDownloader.cs:52 | a block is at most 16384 bytes and ends inside the piece |
| PieceBlocks.TruncDiv | src/PieceDownloader.cs:44 | C# division truncates toward zero, so it agrees with floor division on non-negative numbers |
| PieceBlocks.NumBlocksCeil | src/PieceDownloader.cs:44 | without overflow, the block count is the piece length divided by 16384, rounded up |
| PieceBlocks.NumBlocksWraps | src/PieceDownloader.cs:44 | past the overflow point the count is at most 0, so no block is requested |
| PieceBlocks.BlocksTile | src/PieceDownloader.cs:49-53 | each block is non-empty, at most 16 KiB and inside the piece; it ends where the next begins, and the last ends at the piece end |
| PieceBlocks.BlocksCover | src/PieceDownloader.cs:49-56 | the first k blocks cover min(k*16384, L) bytes, so all of them cover the piece |
| PieceDownloading.RequestFrame | src/PieceDownloader.cs:51-55 | a serialized block request is 17 bytes and carries the request id |
| PieceDownloading.RequestWrites | src/PieceDownloader.cs:49-56 | one request is written per block |
| PieceDownloading.Accept | src/PieceDownloader.cs:62-69 | an accepted piece message leaves the buffer's length unchanged |
| PieceDownloading.ReceiveOne | src/PieceDownloader.cs:61-70 | one receive round stays inside the input and keeps the buffer length |
| PieceDownloading.ReceiveLoop | src/PieceDownloader.cs:59-71 | the receive loop keeps the buffer length |
| PieceDownloading.ReceiveFails | src/PieceDownloader.cs:59-71 | a failed round ends the loop with its error and its reads |
| PieceDownloading.ReceiveAdvances | src/PieceDownloader.cs:59-71 | a successful round hands the loop on, appending its reads |
| PieceDownloading.Greet | src/PieceDownloader.cs:30-41 | the bitfield, interested, unchoke exchange stays inside the input |
| PieceDownloading.Fetch | src/PieceDownloader.cs:43-79 | what comes back after unchoke is a piece of exactly the piece length whose SHA-1 is the expected hash |
| PieceDownloading.Run | src/PieceDownloader.cs:27-80 | what `DownloadPieceAsync` returns is a piece of exactly the piece length whose SHA-1 is the expected hash |
| PieceDownloading.PieceDownloader.constructor | src/PieceDownloader.cs:19-25 | the fields hold the stream, index, length, expected hash and SHA-1 |
| PieceDownloading.PieceDownloader.DownloadPiece | src/PieceDownloader.cs:27-80 | `DownloadPieceAsync` returns the `Run` result and appends the `Run` trace; against an honest peer that is the assembled piece exactly when its SHA-1 is the expected hash (`PieceDownloadFacts.HonestRun`) |
| PieceDownloading.PieceDownloader.AwaitUnchoke | src/PieceDownloader.cs:30-41 | the greeting gives the spec error, cursor and trace |
| PieceDownloading.PieceDownloader.FetchPiece | src/PieceDownloader.cs:43-79 | requests, receives and the hash check give the spec result and trace |
| PieceDownloading.PieceDownloader.SendRequests | src/PieceDownloader.cs:49-56 | the request loop writes exactly the request of every block, in order, and reads nothing; past the overflow point of the block count it writes nothing |
| PieceDownloading.PieceDownloader.ReceiveBlocks | src/PieceDownloader.cs:59-71 | the receive loop gives the spec result, and on success the array holds it |
| PieceDownloading.PieceDownloader.ReceiveBlock | src/PieceDownloader.cs:61-70 | one round reads one message and copies its block into the array, or fails with the spec error |
| PieceDownloadFacts.ReadFrameReads | src/PeerMessage.cs:56-72 | reading a message only reads: two reads for a message with an id |
| PieceDownloadFacts.RequestWritesAt | src/PieceDownloader.cs:49-56 | the i-th write is the request of block i |
| PieceDownloadFacts.RequestWritesFrames | src/PieceDownloader.cs:49-56 | the writes of the request loop are the request frames in order |
| PieceDownloadFacts.ReceiveLoopReads | src/PieceDownloader.cs:59-71 | the receive loop only reads, two reads per block when it succeeds |
| PieceDownloadFacts.NonPieceRejected | src/PieceDownloader.cs:62-63 | a message that is not a piece ends the download with "expected piece" |
| PieceDownloadFacts.KeepAliveRejected | src/PieceDownloader.cs:62-63 | a keep-alive during the blocks is rejected too |
| PieceDownloadFacts.AcceptPlaces | src/PieceDownloader.cs:65-69 | a piece is accepted iff it has id 7, at least 8 payload bytes and a block inside the buffer; its bytes land at `begin` and the rest is unchanged |
| PieceDownloadFacts.AcceptIgnoresIndex | src/PieceDownloader.cs:65 | the piece index in a piece message is not checked |
| PieceDownloadFacts.FailsBeforeInterested | src/PieceDownloader.cs:30-32 | without a bitfield first the download fails having only read |
| PieceDownloadFacts.FailsBeforeRequests | src/PieceDownloader.cs:39-41 | without an unchoke the download fails having written only the interested message |
| PieceDownloadFacts.GreetingWrites | src/PieceDownloader.cs:35-36 | after a bitfield the greeting writes exactly the interested message |
| PieceDownloadFacts.RequestsBeforePieces | src/PieceDownloader.cs:43-71 | after the greeting every request is written before any piece is read; the writes are interested, then all requests |
| PieceDownloadFacts.HashChecked | src/PieceDownloader.cs:73-79 | a returned piece has the expected SHA-1 and the piece length; once all blocks arrive, success iff the hash matches |
| PieceDownloadFacts.RepeatedBlockCounted | src/PieceDownloader.cs:59-71 | two copies of the same block complete a two-block loop: the buffer holds that block once and the rest stays as it was |
| PieceDownloadFacts.PieceReply | src/PieceDownloader.cs:62-69 | the piece message an honest peer sends for a block is well formed, has id 7 and is within the reader's size limit |
| PieceDownloadFacts.RepliesArrive | src/PieceDownloader.cs:59-71 | honest piece messages laid end to end arrive one after the other, wherever they start and whatever follows |
| PieceDownloadFacts.ReplyPlaces | src/PieceDownloader.cs:61-69 | the honest message for block i is accepted, and its block lands at offset i*16384 inside the piece |
| PieceDownloadFacts.ReplyStep | src/PieceDownloader.cs:59-71 | that message moves the receive loop on by one block, with the block in place |
| PieceDownloadFacts.LastServed | src/PieceDownloader.cs:59-71 | the honest message for the last block ends the loop, with the bytes before it kept and the block after them |
| PieceDownloadFacts.ServedStep | src/PieceDownloader.cs:59-71 | an honest message for a block before the last extends what the loop makes of the later blocks by this block |
| PieceDownloadFacts.ServedLoop | src/PieceDownloader.cs:59-71 | against an honest peer the loop from block i keeps the bytes before block i and fills the rest with the blocks in order |
| PieceDownloadFacts.ServedMore | src/PieceDownloader.cs:59-71 | the same for more than one block left |
| PieceDownloadFacts.ArrivedReceive | src/PieceDownloader.cs:43-71 | when every block arrives honestly, the loop over the zeroed piece returns the blocks joined, exactly L bytes |
| PieceDownloadFacts.HonestReceive | src/PieceDownloader.cs:43-71 | the same for the honest messages laid end to end after any prefix |
| PieceDownloadFacts.HonestGreet | src/PieceDownloader.cs:30-41 | a bitfield then an unchoke: the greeting succeeds and reading goes on right after them |
| PieceDownloadFacts.ReceivedThenHashed | src/PieceDownloader.cs:73-79 | once greeted and with all blocks received, the download returns the piece iff its SHA-1 is the expected hash, and fails with a hash mismatch otherwise |
| PieceDownloadFacts.HonestRunAt | src/PieceDownloader.cs:27-80 | after a successful greeting and honest blocks, the download returns the blocks joined iff their SHA-1 matches |
| PieceDownloadFacts.GreetedRun | src/PieceDownloader.cs:27-80 | the same from a bitfield and an unchoke found at the read position |
| PieceDownloadFacts.HonestRun | src/PieceDownloader.cs:27-80 | for every piece length up to the overflow point of the block count, a peer that sends a bitfield, an unchoke and one piece message per block at its offset gets the blocks joined back when their SHA-1 is the expected hash, and a hash mismatch otherwise |
| BencodeSpec.DecodeString | src/Bencode.cs:172-190 | a decoded string's original data is a prefix of the input of at least 2 bytes |
| BencodeSpec.DecodeInteger | src/Bencode.cs:219-234 | a decoded integer's original data is a prefix of the input |
| BencodeSpec.Decoding | src/Bencode.cs:157-170 | every decoded value's original data is a prefix of the input |
| BencodeSpec.ListDecoding | src/Bencode.cs:236-296 | a decoded list's original data is a prefix reaching past the current index |
| BencodeSpec.DictDecoding | src/Bencode.cs:298-359 | a decoded dictionary's original data is a prefix reaching past the current index |
| BencodeSpec.DictValueDecoding | src/Bencode.cs:345-352 | after a key, the dictionary's original data reaches past the key |
| Bencode.Decode | src/Bencode.cs:157-170 | `Decode` computes exactly `Decoding` |
| Bencode.DecodeList | src/Bencode.cs:236-296 | the list loop computes exactly `ListDecoding` |
| Bencode.DecodeDict | src/Bencode.cs:298-359 | the dictionary loop computes exactly `DictDecoding` |
| BencodeFacts.DictKeyStep | src/Bencode.cs:341-345 | a string key moves the loop past the key |
| BencodeFacts.DictValueStep | src/Bencode.cs:350-352 | a value is stored under its key and the loop moves past it |
| BencodeFacts.DictStep | src/Bencode.cs:333-353 | one iteration of a successful dictionary loop: a string key, a value, the key assigned |
| BencodeFacts.DictUnfold | src/Bencode.cs:333-353 | a key and a value decoded in turn make one iteration |
| BencodeFacts.DecodingDependsOnlyOnSpan | src/Bencode.cs:157-359 | the decoder reads nothing beyond a value's original data |
| BencodeFacts.StringDependsOnlyOnSpan | src/Bencode.cs:172-190 | a string decodes the same whatever follows it |
| BencodeFacts.IntegerDependsOnlyOnSpan | src/Bencode.cs:219-234 | an integer decodes the same whatever follows it |
| BencodeFacts.ListDependsOnlyOnSpan | src/Bencode.cs:236-296 | a list decodes the same whatever follows it |
| BencodeFacts.DecodedAtDependsOnlyOnSpan | src/Bencode.cs:286 | an item decodes the same in any input sharing its bytes |
| BencodeFacts.DictDependsOnlyOnSpan | src/Bencode.cs:298-359 | a dictionary decodes the same whatever follows it |
| BencodeFacts.DictRoundDependsOnlyOnSpan | src/Bencode.cs:333-353 | one dictionary iteration depends only on the dictionary's bytes |
| BencodeFacts.DecodingDispatch | src/Bencode.cs:157-170 | empty input and a bad first byte are errors; the kind of value is fixed by the first byte |
| BencodeFacts.EmptyContainers | src/Bencode.cs:241-309 | `le` and `de` decode to the empty list and dictionary, spanning 2 bytes |
| BencodeFacts.DecodingOwnSpan | src/Bencode.cs:157-359 | a value's original data decodes to the same value, which is what makes the info hash well defined |
| BencodeFacts.NoProperPrefixDecodes | src/Bencode.cs:157-359 | no proper prefix of a value's original data decodes |
| BencodeFacts.StringEncodingDecodes | src/Bencode.cs:172-190 | `<len>:<bytes>` decodes to those bytes with that span |
| BencodeFacts.IntegerEncodingDecodes | src/Bencode.cs:219-234 | `i<n>e` decodes to n for every 64-bit n |
| BencodeFacts.DecodedStartsWithTag | src/Bencode.cs:157-170 | original data starts with the input's first byte, a digit, 'i', 'l' or 'd' |
| BencodeFacts.ListStep | src/Bencode.cs:278-289 | one iteration of a successful list loop appends the item and moves past it |
| BencodeFacts.ListItemStep | src/Bencode.cs:283-288 | an item decoded at the index makes one iteration |
| BencodeFacts.ListLoopSpan | src/Bencode.cs:278-295 | the list's original data is the consumed prefix, the items' spans and 'e' |
| BencodeFacts.ListSpan | src/Bencode.cs:236-296 | a list's original data is 'l', its items' original data back to back, then 'e', each item decoding from its own span |
| BencodeFacts.ItemAtSpan | src/Bencode.cs:286 | a value decoded from its own span decodes the same with anything after it |
| BencodeFacts.AssignLastWins | src/Bencode.cs:351 | `dict[key] = value` keeps the last value assigned to a key |
| BencodeFacts.AssignKeeps | src/Bencode.cs:351 | keys not assigned keep their earlier values |
| BencodeFacts.DictLoopSpan | src/Bencode.cs:333-358 | the dictionary's original data is the consumed prefix, the pairs' spans and 'e'; its map is the pairs assigned in order |
| BencodeFacts.DictSpan | src/Bencode.cs:298-359 | a dictionary's original data is 'd', its key/value spans and 'e'; its map is the pairs assigned in order |
| BencodeFacts.DictLastWins | src/Bencode.cs:351 | for a duplicated key, the decoded dictionary holds the value of its last occurrence |
| BEncodingSpec.Less | src/BEncoding.cs:90 | no contract of its own: ordinal order of UTF-16 code units; it is a strict total order by `BEncodingFacts.LessIrreflexive`, `LessAsymmetric`, `LessTransitive` and `LessTotal` |
| BEncodingSpec.Insert | src/BEncoding.cs:96 | inserting into the sorted entries adds one entry (ordinal key order, see Left out) |
| BEncodingSpec.Add | src/BEncoding.cs:96 | `SortedDictionary.Add` fails exactly when the key is present, and otherwise adds one entry |
| BEncodingSpec.Parse | src/BEncoding.cs:55 | `int.Parse`/`long.Parse` succeed only inside the range |
| BEncodingSpec.EnCode | src/BEncoding.cs:31-49 | every encoding is non-empty |
| BEncodingSpec.StrEncoding | src/BEncoding.cs:37 | a string's encoding is as long as its length digits, a colon and the string |
| BEncodingSpec.DecodeStr | src/BEncoding.cs:51-59 | a decoded string is the text right after the first ':', and lies inside the text |
| BEncodingSpec.DecodeInt | src/BEncoding.cs:61-70 | an integer decodes only when the text has an 'e', after the first 'i' if there is one |
| BEncodingSpec.Decoding | src/BEncoding.cs:7-29 | no contract of its own: what `Decode` computes; its properties are `BEncodingFacts.DispatchOnFirst`, `BEncodingFacts.RoundTrip` and `BEncodingFacts.OtherDigitRefused` |
| BEncodingSpec.ListLoop | src/BEncoding.cs:74-83 | no contract of its own: the loop of `BDecodeList`; its properties are `BEncodingFacts.ListLoopStep`, `BEncodingFacts.ListRoundTrip` and `BEncodingFacts.UnclosedListTolerated` |
| BEncodingSpec.DictLoop | src/BEncoding.cs:89-100 | no contract of its own: the loop of `BDecodeDict`; its properties are `BEncodingFacts.DictLoopStep`, `BEncodingFacts.DictRoundTrip` and `BEncodingFacts.DuplicateKeyRejected` |
| BEncodingSpec.DictValueLoop | src/BEncoding.cs:95-97 | no contract of its own: the value half of a `BDecodeDict` round; see `BEncodingFacts.DictDuplicateStep` |
| BEncoding.Decode | src/BEncoding.cs:7-29 | `Decode` computes exactly `Decoding`, which sends text starting with a decimal digit of any script to the string decoder |
| BEncoding.BDecodeList | src/BEncoding.cs:72-84 | the list loop computes exactly `ListLoop` |
| BEncoding.BDecodeDict | src/BEncoding.cs:87-101 | the dictionary loop computes exactly `DictLoop` |
| BEncodingFacts.LessIrreflexive | src/BEncoding.cs:90 | the ordinal key order is irreflexive |
| BEncodingFacts.LessAsymmetric | src/BEncoding.cs:90 | the key order is asymmetric |
| BEncodingFacts.LessTransitive | src/BEncoding.cs:90 | the key order is transitive |
| BEncodingFacts.LessTotal | src/BEncoding.cs:90 | any two distinct keys are ordered |
| BEncodingFacts.InsertContents | src/BEncoding.cs:96 | inserting adds exactly the new entry to the multiset of entries |
| BEncodingFacts.InsertSorted | src/BEncoding.cs:96 | inserting a new key keeps the entries sorted |
| BEncodingFacts.InsertAtEnd | src/BEncoding.cs:96 | a key above all others goes last |
| BEncodingFacts.AddSpec | src/BEncoding.cs:96 | `SortedDictionary.Add` fails iff the key is present; otherwise the result is sorted and holds the old entries plus the new one (ordinal key order, see Left out) |
| BEncodingFacts.StrDecodes | src/BEncoding.cs:51-59 | `BDecodeStr` reads back an encoded string, whatever follows it |
| BEncodingFacts.IntDecodes | src/BEncoding.cs:61-70 | `BDecodeInt` reads back an encoded integer, whatever follows it |
| BEncodingFacts.EnCodeFirst | src/BEncoding.cs:36-43 | no encoding starts with 'e'; it starts with a digit iff it is a string |
| BEncodingFacts.ListLoopStep | src/BEncoding.cs:76-81 | one list iteration appends the item and skips its re-encoded length |
| BEncodingFacts.DictLoopStep | src/BEncoding.cs:91-97 | one dictionary iteration inserts the pair and skips both re-encoded lengths |
| BEncodingFacts.RoundTrip | src/BEncoding.cs:7-101 | decoding the encoding of a value gives the value back, whatever follows; the value's dictionaries must be sorted with distinct keys and the encoder must close them |
| BEncodingFacts.ListRoundTrip | src/BEncoding.cs:72-84 | the list loop reads back encoded items up to a closing 'e' or the end |
| BEncodingFacts.ListRoundStep | src/BEncoding.cs:76-81 | one list round trip step |
| BEncodingFacts.ItemReadBack | src/BEncoding.cs:78-80 | an encoded item decodes to itself and its re-encoding skips exactly its text |
| BEncodingFacts.DictRoundTrip | src/BEncoding.cs:87-101 | the dictionary loop reads back sorted encoded entries |
| BEncodingFacts.DictRoundStep | src/BEncoding.cs:91-97 | one dictionary round trip step |
| BEncodingFacts.KeyReadBack | src/BEncoding.cs:93-94 | an encoded key reads back and does not start with 'e' |
| BEncodingFacts.UnclosedListTolerated | src/BEncoding.cs:76 | a list missing its closing 'e' still decodes, since the loop also stops at the end of the text |
| BEncodingFacts.DispatchOnFirst | src/BEncoding.cs:7-29 | empty text and a first character that is no digit, 'i', 'l' or 'd' throw; the kind of value follows the first character, any decimal digit meaning a string |
| BEncodingFacts.OtherDigitRefused | src/BEncoding.cs:9-55 | text starting with a digit of another script goes to the string decoder and is refused there: no ':' is an invalid value, otherwise `int.Parse` fails on the header |
| BEncodingFacts.ScalarEncodings | src/BEncoding.cs:36-37 | `1:a`, `i1e` and `i2e` are the encodings of "a", 1 and 2 |
| BEncodingFacts.SampleEncodings | src/BEncoding.cs:40-43 | the sample list `[{a: 1}, 2]` encodes to `ld1:ai1eei2ee` |
| BEncodingFacts.SampleClosed | src/BEncoding.cs:43 | with dictionaries closed, `ld1:ai1eei2ee` decodes to the whole sample |
| BEncodingFacts.InnerDictAsWritten | src/BEncoding.cs:43 | as written, the inner dictionary decodes alone |
| BEncodingFacts.UnclosedDictDropsNext | src/BEncoding.cs:43 | as written, `ld1:ai1eei2ee` decodes to a list of the dictionary only, losing the 2 |
| BEncodingFacts.DuplicateKeyRejected | src/BEncoding.cs:96 | a dictionary repeating a key fails with a duplicate-key error |
| BEncodingFacts.SecondEntryFails | src/BEncoding.cs:96 | adding a key already present fails |
| BEncodingFacts.DictDuplicateStep | src/BEncoding.cs:93-96 | an iteration on a present key fails |
| ClientCodec.Hex | src/TorrentClient.cs:59 | two hex digits per byte |
| ClientCodec.HexLower | src/TorrentClient.cs:59 | lowercase hex has two characters per byte |
| ClientCodec.HexUpper | src/TorrentClient.cs:221 | `Convert.ToHexString` has two characters per byte |
| ClientCodec.FromHex | src/TorrentClient.cs:59 | reading hex back halves the length |
| ClientCodec.FoldAll | src/TorrentClient.cs:222 | case folding keeps the length |
| ClientCodec.FromHexLower | src/TorrentClient.cs:59 | lowercase hex reads back to the bytes |
| ClientCodec.FoldHex | src/TorrentClient.cs:221-222 | uppercase and lowercase hex fold to the same text |
| ClientCodec.VerifyPieceIntegrity | src/TorrentClient.cs:218-223 | a hash text passes only if it is twice as long as the digest; `ClientCodec.IntegrityOfStoredHash` gives the exact condition |
| ClientCodec.IntegrityOfStoredHash | src/TorrentClient.cs:218-223 | `VerifyPieceIntegrity` against a stored lowercase hash holds iff the SHA-1 equals the hash bytes |
| ClientCodec.PieceHashList | src/TorrentClient.cs:56-60 | cutting `pieces` succeeds exactly when its length is a multiple of 20, and gives one 40-character hash per 20 bytes |
| ClientCodec.PieceHashesRoundTrip | src/TorrentClient.cs:56-60 | cutting joined 20-byte hashes gives each one in lowercase hex, which reads back to it |
| ClientCodec.CompactPeers | src/TorrentClient.cs:97-107 | decoding succeeds exactly when the length is a multiple of 6, and gives one endpoint per 6 bytes, each with 4 address bytes and a port in 0..65535 |
| ClientCodec.CompactPeersRoundTrip | src/TorrentClient.cs:97-107 | the compact list of endpoints decodes to those endpoints |
| ClientCodec.PeerBytes | src/TorrentClient.cs:97-107 | an endpoint's compact form is 6 bytes |
| ClientCodec.PeerBytesFields | src/TorrentClient.cs:99-104 | the compact form holds the address, then the port big-endian |
| ClientCodec.HandshakeBytes | src/TorrentClient.cs:141-145 | the handshake is 68 bytes |
| ClientCodec.HandshakeLayout | src/TorrentClient.cs:141-145 | the handshake is 68 bytes: 19, the protocol name, 8 zeros, the info hash, the peer id |
| ClientCodec.ReceiveHeader | src/TorrentClient.cs:248-264 | reading the length and type stays inside the input |
| ClientCodec.PayloadSize | src/TorrentClient.cs:264 | a payload size that succeeds fits a byte array |
| ClientCodec.Receive | src/TorrentClient.cs:246-267 | `ReceiveMessage` stays inside the input |
| ClientCodec.ReceiveFrame | src/TorrentClient.cs:246-267 | a framed message of the expected type gives its payload after three reads and consumes exactly the frame |
| ClientCodec.ReceiveWrongType | src/TorrentClient.cs:257-262 | a wrong type byte fails after 5 bytes |
| ClientCodec.PieceLengthAsWritten | src/TorrentClient.cs:281-285 | `GetPieceLength` as written never exceeds a nominal piece length that fits an `int` |
| ClientCodec.PieceLength | src/TorrentClient.cs:281-285 | no contract of its own: the corrected length of the Findings row; its properties are `ClientCodec.PieceLengthInside` and `ClientCodec.PiecesCover` |
| ClientCodec.PieceLengthInside | src/TorrentClient.cs:281-285 | a piece inside the file is what is left of the file, at most the nominal length and positive |
| ClientCodec.PieceLengthAgrees | src/TorrentClient.cs:281-285 | when the remainder fits an `int`, the code as written and the corrected length agree |
| ClientCodec.PieceLengthTruncated | src/TorrentClient.cs:283-284 | as written, the first piece of a file of 2^32 + 100 bytes comes out 100 bytes long; corrected it is 262144 |
| ClientCodec.PiecesCover | src/TorrentClient.cs:281-285 | the first k pieces cover min(k*pieceLength, length) bytes |
| ClientCodec.Field | src/TorrentClient.cs:52 | a lookup succeeds exactly on a dictionary holding the key, and gives the value under it |
| ClientCodec.BytesOf | src/TorrentClient.cs:54 | no contract of its own: the cast to bytes succeeds only on a string |
| ClientCodec.NumberOf | src/TorrentClient.cs:64 | no contract of its own: the cast to `long` succeeds only on an integer |
| ClientCodec.Torrent | src/TorrentClient.cs:51 | no contract of its own: `Bencode.Decode` of the file, its errors wrapped |
| ClientCodec.InfoDict | src/TorrentClient.cs:122-124 | the info value found is a dictionary |
| TorrentSessions.MetaDataOf | src/TorrentClient.cs:45-74 | metadata exists only for a file with an info dictionary; the info hash is the SHA-1 of that dictionary's original bytes, and every piece hash is 40 hex characters |
| TorrentSessions.PeersOf | src/TorrentClient.cs:76-115 | peers come back only for a file whose metadata reads, each with 4 address bytes and a port in 0..65535 |
| TorrentSessions.Handshaking | src/TorrentClient.cs:117-157 | the handshake reads only within the peer's bytes |
| TorrentSessions.ClientBlocks | src/TorrentClient.cs:177 | no blocks for a length of 0 or less; otherwise the least number of 16384-byte blocks that covers the length |
| TorrentSessions.ClientBlocksBound | src/TorrentClient.cs:177 | the loop bound `Math.Ceiling(pieceLength / 16384.0)` admits block i iff it starts inside the piece |
| TorrentSessions.ClientBlockFits | src/TorrentClient.cs:179-180 | a block inside the piece has 1 to 16384 bytes and ends inside it |
| TorrentSessions.BlockRequest | src/TorrentClient.cs:179-181 | a block request frame is 17 bytes and carries the request id |
| TorrentSessions.BlockRound | src/TorrentClient.cs:179-183 | one round stays inside the input |
| TorrentSessions.BlockLoop | src/TorrentClient.cs:177-184 | the block loop stays inside the input |
| TorrentSessions.BlockFails | src/TorrentClient.cs:177-184 | a failed round ends the loop |
| TorrentSessions.BlockAdvances | src/TorrentClient.cs:177-184 | a successful round continues the loop with the block appended |
| TorrentSessions.Opening | src/TorrentClient.cs:169-171 | bitfield, interested and unchoke stay inside the input |
| TorrentSessions.Exchange | src/TorrentClient.cs:164-191 | no contract of its own: the exchange after the handshake; `TorrentClientFacts.ExchangeWrites`, `TorrentClientFacts.HonestExchange` and `TorrentClientFacts.ExchangeSucceeds` state its properties |
| TorrentSessions.Download | src/TorrentClient.cs:159-197 | no contract of its own: `DownloadPieceAsync`; `TorrentClientFacts.DownloadChecked`, `TorrentClientFacts.DownloadWrites` and `TorrentClientFacts.HonestDownload` state its properties |
| TorrentClients.TcpConnection.constructor | src/TorrentClient.cs:127 | a new connection is not disposed |
| TorrentClients.TcpConnection.Dispose | src/TorrentClient.cs:41 | the connection becomes disposed |
| TorrentClients.HandshakeBuffer | src/TorrentClient.cs:141-145 | the buffer filled in place is the 68-byte handshake |
| TorrentClients.PieceHashes | src/TorrentClient.cs:56-60 | the hash loop computes `PieceHashList` |
| TorrentClients.DecodePeers | src/TorrentClient.cs:97-107 | the peer loop computes `CompactPeers` |
| TorrentClients.TorrentClient.constructor | src/TorrentClient.cs:10 | a new client has no connection and no stream |
| TorrentClients.TorrentClient.CleanupConnection | src/TorrentClient.cs:32-43 | the stream and the connection are disposed if present, then both cleared |
| TorrentClients.TorrentClient.GetMetaData | src/TorrentClient.cs:45-74 | it returns `MetaDataOf(file)` |
| TorrentClients.TorrentClient.GetPeers | src/TorrentClient.cs:76-115 | it returns the metadata-checked compact peers of the response |
| TorrentClients.TorrentClient.HandShake | src/TorrentClient.cs:117-157 | it returns the handshake spec result with its reads and writes; any earlier connection is disposed; success keeps the new stream open, failure clears both fields, and the stream is disposed exactly when the reply is short |
| TorrentClients.TorrentClient.SendMessage | src/TorrentClient.cs:225-243 | it writes one frame: the length, the type and the payload |
| TorrentClients.TorrentClient.ReceiveMessage | src/TorrentClient.cs:246-267 | it returns the `Receive` result, cursor and reads |
| TorrentClients.TorrentClient.ReceiveHead | src/TorrentClient.cs:248-264 | the length and type reads give the `ReceiveHeader` result |
| TorrentClients.TorrentClient.RequestBlock | src/TorrentClient.cs:270-278 | it writes one request frame of index, begin and length |
| TorrentClients.TorrentClient.Open | src/TorrentClient.cs:169-171 | the opening exchange gives the `Opening` result and trace |
| TorrentClients.TorrentClient.FetchBlocks | src/TorrentClient.cs:175-184 | the block loop gives the `BlockLoop` result and trace |
| TorrentClients.TorrentClient.FetchStep | src/TorrentClient.cs:177-184 | one iteration keeps the rest of the loop equal to the whole |
| TorrentClients.TorrentClient.FetchBlock | src/TorrentClient.cs:179-183 | one block gives the `BlockRound` result and trace |
| TorrentClients.TorrentClient.Converse | src/TorrentClient.cs:169-191 | the exchange after the handshake gives the `Exchange` result and trace, with the piece length as `GetPieceLength` computes it as written |
| TorrentClients.TorrentClient.DownloadPiece | src/TorrentClient.cs:159-197 | it returns the `Download` result and trace and always ends with no connection; the stream is disposed iff the file has an info dictionary and the connection was made |
| TorrentClientFacts.RoundOfFrame | src/TorrentClient.cs:179-183 | a piece frame yields its payload from byte 8 on |
| TorrentClientFacts.HonestLoop | src/TorrentClient.cs:177-184 | an honest peer's replies make the loop return the blocks joined |
| TorrentClientFacts.HonestLength | src/TorrentClient.cs:177-184 | honest blocks add up to what is left of the piece |
| TorrentClientFacts.HonestPiece | src/TorrentClient.cs:175-184 | for honest replies the loop returns exactly L bytes: the blocks joined |
| TorrentClientFacts.ReceiveReads | src/TorrentClient.cs:246-267 | receiving a message only reads |
| TorrentClientFacts.BlockLoopWrites | src/TorrentClient.cs:177-184 | each request is answered before the next; the writes are the requests of every block |
| TorrentClientFacts.OpeningWrites | src/TorrentClient.cs:169-171 | the opening writes the interested message only after a bitfield |
| TorrentClientFacts.ExchangeWrites | src/TorrentClient.cs:164-191 | a successful exchange wrote interested, then the request of every block of the piece length as written |
| TorrentClientFacts.HandshakeWrites | src/TorrentClient.cs:147-151 | every write is answered by a read; a successful handshake wrote exactly the handshake for the SHA-1 of the info dictionary's original bytes |
| TorrentClientFacts.DownloadWrites | src/TorrentClient.cs:159-197 | one message at a time; a piece returned after writing handshake, interested and all requests, in that order |
| TorrentClientFacts.NoConnectionNoTraffic | src/TorrentClient.cs:122-134 | with no info dictionary or no connection nothing is read or written, and the error is that one |
| TorrentClientFacts.MetaDataHasInfo | src/TorrentClient.cs:51-53 | the info hash is the SHA-1 of the info dictionary's original bytes |
| TorrentClientFacts.StoredHashCheck | src/TorrentClient.cs:218-223 | a stored piece hash is 40 hex digits, and the check holds iff the SHA-1 equals the bytes they spell |
| TorrentClientFacts.DownloadChecked | src/TorrentClient.cs:186-191 | a returned piece's SHA-1 equals the stored hash of that index |
| TorrentClientFacts.HonestOpening | src/TorrentClient.cs:169-171 | a bitfield then an unchoke open the exchange |
| TorrentClientFacts.Fits32Length | src/TorrentClient.cs:281-285 | for a piece inside the file whose remainder fits an `int`, `GetPieceLength` as written is min(pieceLength, length - index*pieceLength) |
| TorrentClientFacts.OpeningOf | src/TorrentClient.cs:169-171 | the opening succeeds when the bitfield and then the unchoke are received |
| TorrentClientFacts.HonestExchange | src/TorrentClient.cs:164-191 | an honest peer yields the piece, as long as `GetPieceLength` as written says; where the remainder fits an `int` that is min(pieceLength, length - index*pieceLength) |
| TorrentClientFacts.HonestDownload | src/TorrentClient.cs:159-197 | the whole download against an honest peer returns the piece, as long as `GetPieceLength` as written says; where the remainder fits an `int` that is min(pieceLength, length - index*pieceLength) |
| TorrentClientFacts.ExchangeSucceeds | src/TorrentClient.cs:164-191 | opening, blocks and a passing hash check make the exchange succeed |
| TorrentClientFacts.DownloadSucceeds | src/TorrentClient.cs:159-197 | a handshake reply then a successful exchange make the download succeed |
| TrackerPeers.AsciiText | src/Tracker.cs:51 | the ASCII text has one character per byte |
| TrackerPeers.AsciiTextAt | src/Tracker.cs:51 | bytes below 128 keep their character and the others become '?' |
| TrackerPeers.FindFrom | src/Tracker.cs:53 | the marker search gives -1 or a position where the marker occurs |
| TrackerPeers.FindFromFirst | src/Tracker.cs:53 | the first occurrence is what the search finds |
| TrackerPeers.Chunks | src/Tracker.cs:57 | no contract of its own: `Chunk(6)`; see `TrackerPeers.ChunksJoined`, `TrackerPeers.ChunksAt` and `TrackerPeers.ChunksCount` |
| TrackerPeers.PortOf | src/Tracker.cs:60 | no contract of its own: the port fold; see `TrackerPeers.PortOfFullChunk` and `TrackerPeers.PortOfShortChunk` |
| TrackerPeers.PeerOf | src/Tracker.cs:58-61 | an endpoint is made exactly from a chunk of at least 4 bytes, and its address is the first four |
| TrackerPeers.PeersOfChunks | src/Tracker.cs:57-61 | one endpoint per chunk |
| TrackerPeers.ChunksJoined | src/Tracker.cs:57 | `Chunk` loses and adds nothing: its chunks joined are the input |
| TrackerPeers.ChunksAt | src/Tracker.cs:57 | chunk k is bytes 6k up to 6k+6 or the end |
| TrackerPeers.ChunksCount | src/Tracker.cs:57 | there are ⌈n/6⌉ chunks |
| TrackerPeers.ShiftInValue | src/Tracker.cs:60 | `(acc << 8) \| b` is acc*256 + b while acc is small |
| TrackerPeers.PortOfFullChunk | src/Tracker.cs:60 | the port of a full chunk is its bytes 4 and 5 big-endian |
| TrackerPeers.PortOfShortChunk | src/Tracker.cs:60 | a 5-byte chunk's port is byte 4, a 4-byte chunk's is 0 |
| TrackerPeers.PeersOfChunksAt | src/Tracker.cs:57-61 | endpoints exist iff every chunk has 4 address bytes; endpoint k is chunk k's address and port |
| TrackerPeers.ChunkedPeersAgree | src/Tracker.cs:57-61 | on whole 6-byte entries the tracker's reading equals the client's compact decoding |
| TrackerPeers.ShortLastChunk | src/Tracker.cs:57-61 | a short tail is an address error below 4 bytes, and otherwise one more endpoint with a partial port |
| TrackerPeers.PeerBytesAsWritten | src/Tracker.cs:51-55 | no contract of its own: the cut as written; see `TrackerPeers.ExtractReadsToEnd` |
| TrackerPeers.ExtractPeers | src/Tracker.cs:48-63 | no contract of its own: `GetPeersAsync` as written; see `TrackerPeers.LastEntryAgrees` and `TrackerPeers.SecondEntryReadAsPeers` |
| TrackerPeers.DeclaredPeerBytes | src/Tracker.cs:51-55 | no contract of its own: the corrected cut of the Findings row; see `TrackerPeers.ExtractDeclaredReadsPeers` |
| TrackerPeers.ExtractDeclaredPeers | src/Tracker.cs:48-63 | no contract of its own: the corrected `GetPeersAsync`; see `TrackerPeers.LastEntryAgrees` and `TrackerPeers.SecondEntryReadAsPeers` |
| TrackerPeers.MarkFound | src/Tracker.cs:53-55 | in a response with `5:peers` first, the cut starts at the marker's last byte and the colon follows the digits |
| TrackerPeers.ExtractReadsToEnd | src/Tracker.cs:53-55 | as written, the cut takes everything after the colon except the response's last byte |
| TrackerPeers.ExtractDeclaredReadsPeers | src/Tracker.cs:53-55 | the corrected cut takes exactly the declared number of bytes after the colon |
| TrackerPeers.LastEntryAgrees | src/Tracker.cs:51-61 | when `peers` is the last entry, both cuts read the client's compact peers |
| TrackerPeers.SecondEntryReadAsPeers | src/Tracker.cs:53-61 | as written, an entry after `peers` is read as more peers; the corrected cut reads the one peer |

## Left out

- **Process and network I/O.** Not modelled:
  - reading the torrent file from disk;
  - the HTTP request to the tracker and the URL-encoded query;
  - TCP connect and its timeout;
  - stream flushes and read/write timeouts.

  The file and the response are byte strings, and a connect that times out is a boolean.
- **Randomness.** `GeneratePeerId` in `src/TorrentClient.cs` and `src/Tracker.cs` is randomness. The peer id is an argument.
- **SHA-1.** SHA-1 is a parameter: any function returning 20 bytes.
- **Exception messages and wrapping.** `InvalidOperationException` wrapping and exception messages are left out. The client's errors are a datatype naming the first exception raised.
- **`ReadAsync` partial reads.** `ReadAsync` is modelled as delivering every available byte up to the buffer size. A real socket may deliver fewer bytes even though more will follow, and the code ignores the count it returns.
- **Host byte order.** `BitConverter.IsLittleEndian` is taken to be true, so `ReceiveMessage` reverses the length bytes and `GetPeersAsync` reverses the port.
- **`IPEndPoint.Parse` and `IPAddress`.**
  - `IPEndPoint.Parse` of the peer address is not modelled: the peer is the stream given to the handshake.
  - An endpoint keeps the 4 address bytes instead of an `IPAddress` object.
  - Only 4-byte addresses occur, because `Slice(i, 4)` and `Take(4)` never give 16 bytes.
- **Unreachable null check.** The check `_stream == null` after the handshake (`src/TorrentClient.cs:164-167`) cannot fire: a successful handshake always sets the stream. It is not modelled.
- **Handshake reply.** The peer's handshake reply is read but never checked, as in the source.
- **Helper methods.** `TorrentClients.TorrentClient.ReceiveHead`, `Open`, `FetchBlocks`, `FetchStep`, `FetchBlock` and `Converse` split `ReceiveMessage` and `DownloadPieceAsync` into verifiable steps. They are not methods of the source.
- **Block loop bound.** The loop bound `Math.Ceiling((double)pieceLength / BlockSize)` is replaced by its meaning: a block is fetched while it starts inside the piece (`TorrentSessions.ClientBlocksBound`).
- **Piece length as written.** `TorrentSessions.Exchange` and `TorrentClients.TorrentClient.Converse` use `ClientCodec.PieceLengthAsWritten`, the code as written, which casts the remainder to `int` before taking the minimum. The corrected `ClientCodec.PieceLength` and its properties are the corrected half of the Findings row; the two agree while the remainder fits an `int` (`ClientCodec.PieceLengthAgrees`).
- **Not modelled at all:**
  - `DownloadFileAsync` (`src/TorrentClient.cs:199-215`), which repeats the modelled piece download over all pieces;
  - `Program.cs`;
  - the JSON converter in `src/Bencode.cs`;
  - the files outside the core (`HandShake.cs`, `TorrentFileParser.cs`).
- **Merge-conflict sides of `src/Bencode.cs`.** The file holds an unresolved merge conflict. The model follows the functions marked "parent of 83ccb46" (`Decode`, `DecodeString`, `DecodeInteger`, `DecodeList`, `DecodeDict`). The switch-based `HEAD` side (lines 2-28, 207-217, 252-276, 314-331) is not modelled.
- **Dictionary keys in `src/Bencode.cs`.** Keys are kept as raw bytes rather than UTF-8-decoded strings. Two distinct invalid UTF-8 keys that decode to the same string would collide in the source but not in the model.
- **Integer parsing.** `int.TryParse`, `long.TryParse` and `int.Parse` use the invariant culture in the model: white space, one sign, ASCII digits and trailing NULs. Culture-specific signs and digits are not modelled.
- **Bit operations.** The tracker's `(acc << 8) | portByte` is modelled on unbounded integers with explicit 32-bit wrap-around, rather than on 32-bit bit-vectors.
- **String codec types.** `BEncoding.EnCode` handles `Int16`, `Int32` and `Int64` alike; the model has one integer kind. Its "unknown type" exceptions cannot occur on decoded values.
- BEncodingSpec.Insert: orders keys by ordinal order of UTF-16 code units (`BEncodingSpec.Less`). `SortedDictionary<string, object>` uses the default string comparer, which compares by the current culture. There `"a"` sorts before `"B"` while ordinally it sorts after it, punctuation such as `_` is placed differently against digits and letters, and characters the culture ignores make distinct strings compare equal. The two orders agree on keys made only of lower-case ASCII letters and digits.
- BEncodingFacts.AddSpec: states duplicate keys and key order by the ordinal order of `BEncodingSpec.Insert`. Under the culture comparer two keys that differ only in ignorable characters are one key, so `Add` throws where the model inserts.

## Findings

| source | as written | input that shows it | evidently intended | confidence | as-written member | corrected member |
|---|---|---|---|---|---|---|
| src/BEncoding.cs:43 | `EnCode` of a `SortedDictionary` writes `d` and the entries but no closing `e`, so its output is not bencoding; the decode loops skip ahead by the length of the re-encoded value, so on standard text they land one character short and read a dictionary's `e` as the end of the enclosing list | `ld1:ai1eei2ee` decodes to a list holding only the dictionary; the `2` is lost | the dictionary encoding ends with `e`, so the text decodes to `[{a: 1}, 2]` and every canonical value round-trips | not executed | BEncodingFacts.UnclosedDictDropsNext | BEncodingFacts.SampleClosed |
| src/TorrentClient.cs:283-284 | `(int)(Length - pieceIndex * PiecesLength)` is cast to `int` before the minimum is taken, so the remainder of a file longer than 2 GiB wraps around | length 4294967396, piece length 262144, piece 0: the piece length comes out as 100 | the minimum is taken on `long` and then cast, giving 262144 | not executed | ClientCodec.PieceLengthTruncated | ClientCodec.PieceLengthInside |
| src/Tracker.cs:53-55 | the peers bytes are cut from after the colon up to the last byte of the whole response (`..^1`), not by the declared string length | `d5:peers6:ABCDEF6:peers60:e` gives 3 endpoints, reading `6:peers60:` as two more peers | exactly the declared number of bytes after the colon, here one peer, address `ABCD`, port 17734 | not executed | TrackerPeers.SecondEntryReadAsPeers | TrackerPeers.ExtractDeclaredReadsPeers |
