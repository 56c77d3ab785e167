# Email-to-document mapping of mailgunflanker/2es.py, in Dafny

`mailgunflanker/2es.py` walks a directory of raw e-mails, parses each one with
the flanker MIME library, turns it into a JSON document and indexes that
document in Elasticsearch under a running id.  This project models the
document construction and the id counter, and proves what the resulting
documents look like.

- `wrappers.dfy` (`Wrappers`): `Option` and `Result`.
- `base64.dfy` (`Base64`): the encoding of section 4 of RFC 4648 used for
  attachment bodies (`b64encode`), with a strict decoder as its partner.
- `mime.dfy` (`Mime`): the parsed message as the script sees it: subject,
  content type (possibly absent), the `is_multipart()` answer, ordered headers,
  optional body, and direct parts.
- `email_doc.dfy` (`EmailDoc`): documents as JSON-like values, the spec
  function `DocumentOf`, the lemmas about it, and `BuildDocument`, which fills
  the dictionary key by key with a loop over the parts and is proved equal to
  `DocumentOf`.
- `indexer.dfy` (`Indexer`): the walk over the files with the global `id`
  counter, emitting `(id, document)` index requests.

Modelling decisions taken from the code:

- A message without a content type makes line 32 call `is_multipart()` on
  `None`. That raises and ends the script. So `DocumentOf` returns
  `Err(MissingContentType)`, and `IndexAll` stops at that file.
- A part without a content type is not textual. If it has a body it becomes an
  attachment, whose `content_type` is `str(None)`, i.e. `"None"`.
- A header value is represented by the text `str(value)` gives for it.
- Bodies are byte sequences stored verbatim (`Raw`). The Base64 text of an
  attachment is stored as a string.

## Model

| member | source | states |
|---|---|---|
| Base64.Encode | mailgunflanker/2es.py:47 | the encoding of n bytes has length 4 * ceil(n / 3) |
| Base64.EncodeUsesAlphabet | mailgunflanker/2es.py:47 | every character is from the alphabet of RFC 4648 section 4, except for padding in the last two positions; the last position is "=" exactly when n is not a multiple of 3, the one before it exactly when n mod 3 is 1 |
| Base64.EncodeCharset | mailgunflanker/2es.py:47 | every character of an encoding is from the alphabet or is "=" |
| Base64.DecodeEncode | mailgunflanker/2es.py:47 | decoding the encoding of any bytes gives those bytes back |
| Base64.EncodeDecode | mailgunflanker/2es.py:47 | any text the strict decoder accepts is the encoding of what it decodes to |
| Base64.DecodeIffEncode | mailgunflanker/2es.py:47 | Decode(s) == Some(b) exactly when Encode(b) == s |
| EmailDoc.HeaderPairs | mailgunflanker/2es.py:29 | header conversion (also lines 40 and 48) keeps the count and order of the headers and maps each (name, value) to [name, str(value)] |
| EmailDoc.ReadHeaderPairs | mailgunflanker/2es.py:29 | every header, name and rendered value, can be read back in order from the converted list |
| EmailDoc.PositionsExact | mailgunflanker/2es.py:35-51 | the positions of the parts sorted into one place are strictly increasing and are exactly the parts the if/elif sends there |
| EmailDoc.EntriesAtPositions | mailgunflanker/2es.py:35-51 | the j-th entry of a list is the entry of the part at the j-th position sorted into that list |
| EmailDoc.PositionsPartition | mailgunflanker/2es.py:35-51 | each part goes to exactly one of parts, attachments or nowhere |
| EmailDoc.NoneDropped | mailgunflanker/2es.py:44-51 | no part is dropped exactly when every non-textual part has a body |
| EmailDoc.PlacementOf | mailgunflanker/2es.py:36-51 | a part goes to parts exactly when its content type is present and starts with "text/", to attachments exactly when it is not textual and has a body, and is dropped otherwise; characterised further by PositionsExact, PositionsPartition and NoneDropped |
| EmailDoc.DocumentOf | mailgunflanker/2es.py:27-57 | the result is an error exactly when the message has no content type, and every document has subject and headers; characterised further by DocumentFails, DocumentCommon, MultipartDocument, TextPartsInOrder, AttachmentsInOrder and SinglePartDocument |
| Base64.EncodeVectors | mailgunflanker/2es.py:47 | the encoder reproduces the six test vectors of section 10 of RFC 4648, which fixes the bit layout of each quantum |
| EmailDoc.DocumentFails | mailgunflanker/2es.py:32 | building a document fails exactly when the message has no content type |
| EmailDoc.DocumentCommon | mailgunflanker/2es.py:27-29 | every document has the cleaned subject and the message's header pairs |
| EmailDoc.MultipartDocument | mailgunflanker/2es.py:32-51 | a multipart document has exactly the keys subject, headers, parts and attachments; no part is in both lists; the two lists hold at most one entry per part, with equality exactly when every non-textual part has a body |
| EmailDoc.TextPartsInOrder | mailgunflanker/2es.py:35-43 | parts holds, in the original order, exactly the parts whose content type is present and starts with "text/", each with its body, header pairs and content type |
| EmailDoc.AttachmentsInOrder | mailgunflanker/2es.py:44-51 | attachments holds, in the original order, exactly the non-textual parts that have a body, each with the Base64 encoding of its body, its header pairs and str() of its content type ("None" when absent) |
| EmailDoc.SinglePartDocument | mailgunflanker/2es.py:52-57 | a single-part document has content_type and exactly one of body (when the content type is present and starts with "text/") or binbody, both holding the raw body, and never parts or attachments |
| EmailDoc.BuildDocument | mailgunflanker/2es.py:27-57 | the dictionary filled key by key, with one loop over the parts, is exactly DocumentOf of the message |
| Indexer.IndexAll | mailgunflanker/2es.py:18-59 | the n-th index request carries id n and the document of the n-th file, so ids are strictly increasing; the walk completes exactly when every file is indexed, and otherwise stops at the first message without a content type, whose id is one more than the number indexed |

## Left out

- Elasticsearch client setup, index creation and the `es.index` call (lines 14-16 and 59). They are network I/O. Indexing is modelled as the sequence of emitted `(id, document)` requests.
- Environment configuration (lines 10-12), the `os.walk` traversal and file reading (lines 20-24). They are filesystem I/O. The walk is the input sequence of parsed messages, in visiting order.
- Flanker parsing (`mime.from_string`), `clean_subject`, `is_multipart()` and `str()` of header values. They belong to a library that is not part of this model. Their results are fields of `Mime.Message`.
- Failures other than a missing content type are not modelled: unreadable files, parse errors, a non-bytes body given to `b64encode`, and indexing errors.
- The order of keys in a Python dictionary is not modelled. Documents are maps.
- Header values are reduced to their rendered text, so `ReadHeaderPairs` recovers that text and not the library's value objects.
- Text bodies and binary bodies are both byte sequences. The difference between Python text and bytes is not modelled.
- `email/2es.py` only prints the subjects and headers of a fixed mail directory, so it is I/O only.
- `slack/madcore_slack.py` is a thin wrapper over the Slack client: argument parsing, payload loading, one API call per action, and writing `data.json`.
