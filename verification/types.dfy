/** The records shared by the decoder and the card reader (src/types.ts). */
module Types {
  import opened Options

  /** A decoded TLV element. Its value is the raw hex slice of a primitive element
      or the decoded children of a constructed one, never both. `description` is
      filled in only by the dictionary pass. */
  datatype EmvObject = EmvObject(tag: string, length: string, value: EmvValue, description: Option<string>)

  datatype EmvValue = Prim(hex: string) | Cons(children: seq<EmvObject>)

  /** The card schemes the reader recognises; "no scheme" (`null`) is `None` of an `Option`. */
  datatype CardScheme = Visa | Mastercard | Jcb | Amex | UnionPay | Discover

  /** What a successful scan returns. */
  datatype NfcCardResult = NfcCardResult(card: string, exp: string, scheme: CardScheme)

  /** The closed set of errors a scan reports. */
  datatype NfcError =
    | NfcNotSupported
    | NfcNotEnabled
    | AidNotFound
    | UnsupportedCardScheme
    | CardReadFailed
    | ScanTimeout

  /** Number of characters (primitive) or children (constructed): JavaScript's `value.length`. */
  function ValueLength(v: EmvValue): nat {
    match v
    case Prim(h) => |h|
    case Cons(c) => |c|
  }
}
