/**
  The parsed MIME message that `mailgunflanker/2es.py` reads, reduced to the
  attributes the indexing script touches.  Parsing itself (flanker's
  `mime.from_string`) is not part of this model: a message arrives already
  parsed, and what the flanker library would compute (the cleaned subject,
  `is_multipart()`, `str()` of a header value) arrives as plain fields.
*/
module Mime {
  import opened Wrappers
  import Base64

  /** A header value, represented by the text `str(value)` renders for it. */
  datatype HeaderValue = HeaderValue(rendered: string)

  /** One `(name, value)` item of `headers.items()`. */
  datatype Header = Header(name: string, value: HeaderValue)

  /**
    A message or a part of a multipart message.
    - `subject`: `clean_subject` of the message;
    - `contentType`: `str(content_type)`, or None when the message has no content type;
    - `isMultipart`: what `content_type.is_multipart()` answers;
    - `headers`: `headers.items()`, in order, duplicates included;
    - `body`: the decoded body, or None when there is none;
    - `parts`: the direct sub-parts, in order.
  */
  datatype Message = Message(
    subject: string,
    contentType: Option<string>,
    isMultipart: bool,
    headers: seq<Header>,
    body: Option<seq<Base64.byte>>,
    parts: seq<Message>)
}
