/** Bytes, the three N64 ROM byte orders, the magic-header classification
    done by get_rom_format and the output-extension check at the top of main. */
module Formats {

  type byte = bv8

  datatype Option<T> = None | Some(value: T)

  /** The three byte orders a ROM image can be stored in, named after the
      file extension that denotes them: .z64 is big-endian, .n64 has every
      32-bit word reversed, .v64 has every 16-bit word byte-swapped. */
  datatype Format = N64 | Z64 | V64

  /** The first four bytes of a ROM image stored in format `f`. */
  function Magic(f: Format): seq<byte>
  {
    match f
    case N64 => [0x40, 0x12, 0x37, 0x80]
    case Z64 => [0x80, 0x37, 0x12, 0x40]
    case V64 => [0x37, 0x80, 0x40, 0x12]
  }

  /** The extension string that get_rom_format returns for `f`. */
  function Ext(f: Format): string
  {
    match f
    case N64 => ".n64"
    case Z64 => ".z64"
    case V64 => ".v64"
  }

  /** The accepted output extensions, in lower case. */
  const ValidExt: seq<string> := [".n64", ".v64", ".z64"]

  /** Classifies the bytes read from the start of the file. The header is
      whatever `read(4)` returned, so it may be shorter than four bytes; only
      an exact match with one of the three magic headers gives a format. */
  function GetRomFormat(header: seq<byte>): (r: Option<Format>)
    ensures r.Some? ==> header == Magic(r.value)
    ensures r.None? ==> forall f: Format :: header != Magic(f)
  {
    if header == [0x40, 0x12, 0x37, 0x80] then Some(N64)
    else if header == [0x80, 0x37, 0x12, 0x40] then Some(Z64)
    else if header == [0x37, 0x80, 0x40, 0x12] then Some(V64)
    else None
  }

  /** The magic headers are pairwise distinct, so each one names exactly one
      format and the extensions of distinct formats differ. */
  lemma MagicAndExtInjective(f: Format, g: Format)
    ensures Magic(f) == Magic(g) <==> f == g
    ensures Ext(f) == Ext(g) <==> f == g
  {
  }

  /** ASCII lower-casing of one character. */
  function LowerChar(c: char): char
  {
    if 'A' <= c <= 'Z' then (c as int - 'A' as int + 'a' as int) as char else c
  }

  /** `str.lower()` on the characters an extension is made of. */
  function Lower(s: string): string
  {
    seq(|s|, i requires 0 <= i < |s| => LowerChar(s[i]))
  }

  /** The check `output_ext.lower() not in valid_ext`, negated. */
  predicate IsValidOutputExt(ext: string)
  {
    Lower(ext) in ValidExt
  }

  /** The extension check ignores case: it accepts exactly the three
      extensions with their letter in either case, and nothing else. */
  lemma ValidOutputExtCases(ext: string)
    ensures IsValidOutputExt(ext) <==> ext in [".n64", ".N64", ".v64", ".V64", ".z64", ".Z64"]
  {
    if IsValidOutputExt(ext) {
      var low := Lower(ext);
      assert low == ".n64" || low == ".v64" || low == ".z64";
      assert |ext| == 4;
      assert low[0] == '.' && low[2] == '6' && low[3] == '4';
      assert ext[0] == '.' && ext[2] == '6' && ext[3] == '4';
      assert ext == [ext[0], ext[1], ext[2], ext[3]];
      if low[1] == 'n' {
        assert ext[1] == 'n' || ext[1] == 'N';
      } else if low[1] == 'v' {
        assert ext[1] == 'v' || ext[1] == 'V';
      } else {
        assert ext[1] == 'z' || ext[1] == 'Z';
      }
    } else {
      assert Lower(".N64") == ".n64";
      assert Lower(".V64") == ".v64";
      assert Lower(".Z64") == ".z64";
      assert Lower(".n64") == ".n64";
      assert Lower(".v64") == ".v64";
      assert Lower(".z64") == ".z64";
    }
  }

  /** Every extension get_rom_format returns passes the extension check. */
  lemma ExtIsValid(f: Format)
    ensures IsValidOutputExt(Ext(f)) && Ext(f) in ValidExt
  {
    assert Lower(Ext(f)) == Ext(f);
  }
}
