/** The favicon validators of src/validators.py: predicates on what reading a file
    yields, and the case-insensitive lookup from file extension to validator. */
module Validators {
  import opened TextUtil

  newtype byte = x: int | 0 <= x < 256

  /** What opening a file gives a validator: its bytes (`open(path, 'rb')`) and its
      text (`read_text()`), each `None` when reading or decoding raises. */
  datatype FileRead = FileRead(bytes: Option<seq<byte>>, text: Option<string>)

  /** `f.read(n)`: at most `n` leading bytes. */
  function ReadUpTo(data: seq<byte>, n: nat): (r: seq<byte>)
    ensures |r| == if |data| < n then |data| else n
    ensures r == data[..|r|]
  {
    if |data| < n then data else data[..n]
  }

  /** Python's `s[i:j]` for `0 <= i <= j`: the bounds are clamped to the length. */
  function Slice(s: seq<byte>, i: nat, j: nat): (r: seq<byte>)
    requires i <= j
    ensures |r| == if j <= |s| then j - i else if i <= |s| then |s| - i else 0
  {
    if i >= |s| then [] else if j >= |s| then s[i..] else s[i..j]
  }

  const IcoMagic: seq<byte> := [0x00, 0x00, 0x01, 0x00]

  /** The PNG file signature (section 3.1 of RFC 2083). */
  const PngSignature: seq<byte> := [0x89, 0x50, 0x4E, 0x47, 0x0D, 0x0A, 0x1A, 0x0A]

  /** `ICOValidator.validate`: `header[:2] == b'\x00\x00' and header[2:4] == b'\x01\x00'`
      on the first four bytes; false when the file cannot be read. */
  predicate IcoValid(f: FileRead)
  {
    match f.bytes
    case None => false
    case Some(data) =>
      var header := ReadUpTo(data, 4);
      Slice(header, 0, 2) == [0x00, 0x00] && Slice(header, 2, 4) == [0x01, 0x00]
  }

  /** `PNGValidator.validate`: the first eight bytes are the signature. */
  predicate PngValid(f: FileRead)
  {
    match f.bytes
    case None => false
    case Some(data) => ReadUpTo(data, 8) == PngSignature
  }

  /** `SVGValidator.validate`: the lower-cased text holds `<svg` and `</svg>`. */
  predicate SvgValid(f: FileRead)
  {
    match f.text
    case None => false
    case Some(content) => Contains(Lower(content), "<svg") && Contains(Lower(content), "</svg>")
  }

  /** The ICO check holds exactly when the file has at least four bytes, starting `00 00 01 00`;
      a shorter file fails the comparison rather than raising. */
  lemma IcoValidIff(f: FileRead)
    ensures IcoValid(f) <==> f.bytes.Some? && |f.bytes.value| >= 4 && f.bytes.value[..4] == IcoMagic
  {
    if f.bytes.Some? {
      var data := f.bytes.value;
      var header := ReadUpTo(data, 4);
      if |data| >= 4 {
        assert header == data[..4];
        assert Slice(header, 0, 2) == data[..2] && Slice(header, 2, 4) == data[2..4];
        assert data[..4] == data[..2] + data[2..4];
        assert IcoMagic == [0x00, 0x00] + [0x01, 0x00];
      } else {
        assert |Slice(header, 2, 4)| < 2;
      }
    }
  }

  /** The PNG check holds exactly when the file has at least eight bytes, starting with
      the signature. */
  lemma PngValidIff(f: FileRead)
    ensures PngValid(f) <==> f.bytes.Some? && |f.bytes.value| >= 8 && f.bytes.value[..8] == PngSignature
  {
  }

  /** Upper-case letters in the text do not matter. */
  lemma SvgCaseInsensitive(content: string, bytes: Option<seq<byte>>)
    ensures SvgValid(FileRead(bytes, Some(content))) == SvgValid(FileRead(bytes, Some(Lower(content))))
  {
    LowerIdempotent(content);
  }

  /** Only presence is checked: a closing tag before the only opening tag is accepted. */
  lemma SvgOrderNotChecked(content: string)
    requires content == "</svg><svg"
    ensures SvgValid(FileRead(None, Some(content)))
  {
    LowerNoUpper(content);
    assert OccursAt(content, "</svg>", 0);
    assert OccursAt(content, "<svg", 6);
  }

  /** Every validator answers false, rather than raising, when the read fails. */
  lemma FailedReadIsInvalid(f: FileRead)
    ensures f.bytes.None? ==> !IcoValid(f) && !PngValid(f)
    ensures f.text.None? ==> !SvgValid(f)
  {
  }

  // ---------------------------------------------------------------------------
  // `ValidatorFactory`

  datatype Validator = Ico | Png | Svg

  /** `validator.validate(path)` */
  predicate Validate(v: Validator, f: FileRead)
  {
    match v
    case Ico => IcoValid(f)
    case Png => PngValid(f)
    case Svg => SvgValid(f)
  }

  /** The key under which the factory registers each validator. */
  function ExtensionOf(v: Validator): string
  {
    match v
    case Ico => ".ico"
    case Png => ".png"
    case Svg => ".svg"
  }

  /** `ValidatorFactory.get_validator`: a lookup of the lower-cased extension. */
  function GetValidator(ext: string): Option<Validator>
  {
    var key := Lower(ext);
    if key == ".ico" then Some(Ico)
    else if key == ".png" then Some(Png)
    else if key == ".svg" then Some(Svg)
    else None
  }

  /** The lookup finds `v` exactly when the lower-cased extension is `v`'s key,
      and finds nothing for any other extension. */
  lemma GetValidatorIff(ext: string, v: Validator)
    ensures GetValidator(ext) == Some(v) <==> Lower(ext) == ExtensionOf(v)
    ensures GetValidator(ext) == None <==> Lower(ext) !in {".ico", ".png", ".svg"}
  {
  }

  /** Each registered key finds its own validator, and the lookup ignores case. */
  lemma GetValidatorRoundTrip(v: Validator, ext: string)
    ensures GetValidator(ExtensionOf(v)) == Some(v)
    ensures GetValidator(Lower(ext)) == GetValidator(ext)
  {
    LowerNoUpper(ExtensionOf(v));
    LowerIdempotent(ext);
  }

  /** `.PNG` finds the PNG validator. */
  lemma GetValidatorUpperCase(ext: string)
    requires ext == ".PNG"
    ensures GetValidator(ext) == Some(Png)
  {
    assert Lower(ext) == ".png";
  }
}
