/**
  * The Python values that travel through the messaging core (what `NodeConnection.send`
  * accepts and what `parse_packet` returns), and the contract of the `json` library.
  *
  * `json.dumps`/`json.loads` are foreign code: the model takes them as a pair of functions
  * together with the laws the library keeps (`JsonLaws`), rather than re-implementing JSON.
  */
module Json {
  import opened Wrappers
  import opened Utf8

  /** A Python value: None, bool, int, str, bytes, list or dict with str keys. */
  datatype Value =
    | VNone
    | VBool(b: bool)
    | VInt(i: int)
    | VStr(s: string)
    | VBytes(bytes: seq<byte>)
    | VList(items: seq<Value>)
    | VDict(fields: map<string, Value>)

  /** `json.dumps` succeeds on `v`: no `bytes` anywhere inside it (otherwise it raises TypeError). */
  predicate Serializable(v: Value) {
    match v
    case VBytes(_) => false
    case VList(items) => forall k | 0 <= k < |items| :: Serializable(items[k])
    case VDict(fields) => forall key | key in fields :: Serializable(fields[key])
    case _ => true
  }

  /** Printable ASCII: what `json.dumps` emits with its default `ensure_ascii=True`. */
  predicate Printable(s: string) {
    forall i | 0 <= i < |s| :: ' ' <= s[i] <= '~'
  }

  /**
    * `json.dumps` and `json.loads`. `dumps` yields None where Python raises TypeError;
    * `loads` yields None where Python raises JSONDecodeError.
    */
  datatype JsonCodec = JsonCodec(dumps: Value -> Option<string>, loads: string -> Option<Value>)

  /** The laws of Python's `json` module that the messaging core relies on. */
  ghost predicate JsonLaws(c: JsonCodec) {
    // dumps raises exactly on values holding bytes
    (forall v :: c.dumps(v).Some? <==> Serializable(v)) &&
    // loads(dumps(v)) == v
    (forall v :: c.dumps(v).Some? ==> c.loads(c.dumps(v).value) == Some(v)) &&
    // the text is non-empty printable ASCII
    (forall v :: c.dumps(v).Some? ==> |c.dumps(v).value| > 0 && Printable(c.dumps(v).value)) &&
    // loads never produces bytes
    (forall t :: c.loads(t).Some? ==> Serializable(c.loads(t).value))
  }

  /** Printable ASCII text has an ASCII UTF-8 encoding with no control byte such as 0x04. */
  lemma PrintableEncoding(s: string)
    requires Printable(s)
    ensures |Encode(s)| == |s|
    ensures forall i | 0 <= i < |s| :: 0x20 <= Encode(s)[i] <= 0x7E
  {
    EncodeAscii(s);
  }
}
