/** What the message entity takes from outside: the mailbox type of the `lettre` crate, dates of the
    `chrono` crate, the account configuration, the failures, and the foreign functions the code calls. The foreign
    functions are not re-implemented: a `Collaborators` value carries each of them as an arbitrary
    total function, so every property proved about the message holds whatever they compute. */
module Externals {
  import opened Wrappers

  /** A mailbox address (`lettre::message::Mailbox`): an optional display name and an e-mail address. */
  datatype Addr = Addr(name: Option<string>, email: string)

  /** An instant with its UTC offset (`chrono::DateTime<FixedOffset>`); only ever formatted. */
  datatype DateTime = DateTime(timestamp: int, offsetSeconds: int)

  /** The failures the message code reports, with the context it attaches. */
  datatype Error =
    | AddressError(raw: string)                   // an address string that does not parse
    | AddressListError(raw: string, cause: Error) // "cannot parse addresses": the whole header value
    | ImapAddressError(cause: Error)              // a fetched address that cannot be converted
    | HeaderValueError(key: string)               // a header value that is not UTF-8
    | HeaderError(key: string, cause: Error)      // "cannot parse header": the header key
    | BodyDecodeError                             // a template body that is not UTF-8
    | AttachmentError(path: string)               // an attachment that cannot be expanded or read

  /** The IMAP sequence number of a message (`u32`). */
  newtype u32 = x: int | 0 <= x < 0x1_0000_0000

  /** An IMAP flag (`imap::types::Flag`): the system flags and any custom keyword. */
  datatype Flag = Seen | Answered | Flagged | Deleted | Draft | Recent | MayCreate | Custom(name: string)

  /** A byte of a raw header value or body. */
  newtype byte = x: int | 0 <= x < 256

  /** The account configuration the transformations read: its own address string
      (`Account::address()`) and its optional signature (`account.sig`). */
  datatype Account = Account(address: string, sig: Option<string>)

  /** The foreign functions, one field each. */
  datatype Collaborators = Collaborators(
    /** `str::parse::<Mailbox>()`: `None` when the string is not an address. */
    parseMailbox: string -> Option<Addr>,
    /** `Mailbox::to_string()`. */
    showMailbox: Addr -> string,
    /** `date.format("%d %b %Y, at %H:%M")`. */
    formatDate: DateTime -> string,
    /** `date.to_rfc2822()`. */
    rfc2822: DateTime -> string,
    /** `ammonia` with an empty tag set: removes all HTML markup. */
    stripTags: string -> string,
    /** The regular expression `(\r?\n\s*){2,}` replaced by a blank line. */
    mergeBlankLines: string -> string,
    /** The regular expression `(\r?\n){2,}` replaced by a blank line. */
    mergeNewLines: string -> string,
    /** The regular expression `(\t|&nbsp;)` replaced by a space. */
    tabsAndNbspToSpace: string -> string,
    /** The regular expression `\t` replaced by a space. */
    tabsToSpace: string -> string,
    /** The regular expression ` {2,}` replaced by two spaces. */
    mergeSpaces: string -> string,
    /** `html_escape::decode_html_entities`. */
    decodeEntities: string -> string,
    /** `String::from_utf8`: `None` when the bytes are not UTF-8. */
    decodeUtf8: seq<byte> -> Option<string>
  )
}
