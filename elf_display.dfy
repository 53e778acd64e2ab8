/**
 * The text report of a decoded header, as `ElfType`'s and `ElfFile`'s
 * `Display` implementations and the `display_header!` macro write it: one
 * fixed label per line followed by the field's value, each line ended by a
 * newline (`writeln!`).
 *
 * The machine name table lives outside this model; the renderer takes it as
 * the parameter `machineName`.
 */
module ElfDisplay {
  import opened Bytes
  import opened Numerals
  import opened Elf

  // The text of `ElfType`'s `Display`.

  const NoneText := "NONE (None)"
  const RelText := "REL (Relocatable file)"
  const ExecText := "EXEC (Executable file)"
  const DynText := "DYN (FIXME)"
  const CoreText := "CORE (Core file)"
  const OsPrefix := "OS Specific: (0x"
  const ProcessorPrefix := "Processor Specific: (0x"
  const UnknownPrefix := "<unknown>: 0x"

  /** `h` is `n` in lowercase hex, with no leading zero unless `n` is 0. */
  predicate HexDigitsOf(h: string, n: nat) {
    && |h| >= 1
    && (forall i :: 0 <= i < |h| ==> IsDigit(h[i], 16))
    && (h[0] == '0' <==> n == 0)
    && NumeralValue(h, 16) == n
  }

  /** `ElfType`'s `Display`: five fixed names, two reserved ranges, and a fallback. */
  function ElfTypeText(t: ElfType): (s: string)
    ensures |s| > 0
  {
    var c := t.code;
    if c == 0 then NoneText
    else if c == 1 then RelText
    else if c == 2 then ExecText
    else if c == 3 then DynText
    else if c == 4 then CoreText
    else if 0xfe00 <= c <= 0xfeff then OsPrefix + Hex(c as nat) + ")"
    else if 0xff00 <= c <= 0xffff then ProcessorPrefix + Hex(c as nat) + ")"
    else UnknownPrefix + Hex(c as nat)
  }

  /**
   * The label names the range the code falls in, in both directions: each
   * code matches exactly one arm, and the arm can be read off the label.
   */
  lemma ElfTypeTextArms(t: ElfType)
    ensures t.code <= 4 <==> ElfTypeText(t) in {NoneText, RelText, ExecText, DynText, CoreText}
    ensures 0xfe00 <= t.code <= 0xfeff <==> OsPrefix <= ElfTypeText(t)
    ensures 0xff00 <= t.code <= 0xffff <==> ProcessorPrefix <= ElfTypeText(t)
    ensures (5 <= t.code < 0xfe00) <==> UnknownPrefix <= ElfTypeText(t)
  {
    var s := ElfTypeText(t);
    // the first character tells the eight arms apart
    assert s[0] == 'N' <==> t.code == 0;
    assert s[0] == 'R' <==> t.code == 1;
    assert s[0] == 'E' <==> t.code == 2;
    assert s[0] == 'D' <==> t.code == 3;
    assert s[0] == 'C' <==> t.code == 4;
    assert s[0] == 'O' <==> 0xfe00 <= t.code <= 0xfeff;
    assert s[0] == 'P' <==> 0xff00 <= t.code;
    assert s[0] == '<' <==> 5 <= t.code < 0xfe00;
  }

  /**
   * What each arm writes: the five fixed names for codes 0-4, and for every
   * other code its prefix, the code as lowercase hex digits without leading
   * zeros (`{:#x}` after its `0x`), and the closing parenthesis of the OS and
   * processor ranges.
   */
  lemma ElfTypeTextCodes(t: ElfType)
    ensures t.code == 0 ==> ElfTypeText(t) == "NONE (None)"
    ensures t.code == 1 ==> ElfTypeText(t) == "REL (Relocatable file)"
    ensures t.code == 2 ==> ElfTypeText(t) == "EXEC (Executable file)"
    ensures t.code == 3 ==> ElfTypeText(t) == "DYN (FIXME)"
    ensures t.code == 4 ==> ElfTypeText(t) == "CORE (Core file)"
    ensures 0xfe00 <= t.code <= 0xfeff ==> var s := ElfTypeText(t);
      |s| > |OsPrefix| + 1 && s[|s| - 1] == ')' && HexDigitsOf(s[|OsPrefix|..|s| - 1], t.code as nat)
    ensures 0xff00 <= t.code ==> var s := ElfTypeText(t);
      |s| > |ProcessorPrefix| + 1 && s[|s| - 1] == ')' && HexDigitsOf(s[|ProcessorPrefix|..|s| - 1], t.code as nat)
    ensures 5 <= t.code < 0xfe00 ==> var s := ElfTypeText(t);
      |s| > |UnknownPrefix| && HexDigitsOf(s[|UnknownPrefix|..], t.code as nat)
  {
    var s, h := ElfTypeText(t), Hex(t.code as nat);
    if 0xfe00 <= t.code <= 0xfeff {
      assert s[|OsPrefix|..|s| - 1] == h;
    } else if 0xff00 <= t.code {
      assert s[|ProcessorPrefix|..|s| - 1] == h;
    } else if 5 <= t.code {
      assert s[|UnknownPrefix|..] == h;
    }
  }

  /** Two codes never share a label. */
  lemma ElfTypeTextInjective(a: ElfType, b: ElfType)
    ensures ElfTypeText(a) == ElfTypeText(b) ==> a == b
  {
    var sa, sb := ElfTypeText(a), ElfTypeText(b);
    if sa == sb {
      ElfTypeTextArms(a);
      ElfTypeTextArms(b);
      var ha, hb := Hex(a.code as nat), Hex(b.code as nat);
      if 0xfe00 <= a.code <= 0xfeff {
        assert sa[|OsPrefix|..|sa| - 1] == ha;
        assert sb[|OsPrefix|..|sb| - 1] == hb;
      } else if 0xff00 <= a.code {
        assert sa[|ProcessorPrefix|..|sa| - 1] == ha;
        assert sb[|ProcessorPrefix|..|sb| - 1] == hb;
      } else if 5 <= a.code {
        assert sa[|UnknownPrefix|..] == ha;
        assert sb[|UnknownPrefix|..] == hb;
      }
      NumeralInjective(a.code as nat, b.code as nat, 16);
    }
  }

  lemma ElfTypeTextExamples()
    ensures ElfTypeText(ElfType(2)) == "EXEC (Executable file)"
    ensures ElfTypeText(ElfType(3)) == "DYN (FIXME)"
  {
  }

  lemma ElfTypeTextUnknownExample()
    ensures ElfTypeText(ElfType(0x9999)) == "<unknown>: 0x9999"
  {
    assert Hex(0x9999) == "9999";
  }

  lemma ElfTypeTextOsExample()
    ensures ElfTypeText(ElfType(0xfe01)) == "OS Specific: (0xfe01)"
  {
    assert Hex(0xfe01) == "fe01";
  }

  lemma ElfTypeTextProcessorExample()
    ensures ElfTypeText(ElfType(0xff7a)) == "Processor Specific: (0xff7a)"
  {
    assert Hex(0xff7a) == "ff7a";
  }

  // The Magic line: the magic and padding bytes as `{:02x}`, joined by spaces.

  function HexTokens(bs: seq<byte>): (ts: seq<string>)
    ensures |ts| == |bs|
    ensures forall i :: 0 <= i < |bs| ==> ts[i] == Hex2(bs[i] as nat)
  {
    if bs == [] then [] else [Hex2(bs[0] as nat)] + HexTokens(bs[1..])
  }

  /** `join(sep)` of Rust's slices of strings. */
  function Join(ts: seq<string>, sep: string): string {
    if ts == [] then "" else if |ts| == 1 then ts[0] else ts[0] + sep + Join(ts[1..], sep)
  }

  /** Two-character tokens joined by single spaces sit every three characters. */
  lemma {:induction false} JoinPairs(ts: seq<string>)
    requires |ts| > 0
    requires forall i :: 0 <= i < |ts| ==> |ts[i]| == 2
    ensures |Join(ts, " ")| == 3 * |ts| - 1
    ensures forall i :: 0 <= i < |ts| ==> Join(ts, " ")[3 * i..3 * i + 2] == ts[i]
    ensures forall i :: 0 <= i < |ts| - 1 ==> Join(ts, " ")[3 * i + 2] == ' '
  {
    if |ts| > 1 {
      JoinPairs(ts[1..]);
      var s, rest := Join(ts, " "), Join(ts[1..], " ");
      assert s == ts[0] + " " + rest;
      forall i | 1 <= i < |ts|
        ensures s[3 * i..3 * i + 2] == ts[i]
      {
        assert s[3 * i..3 * i + 2] == rest[3 * (i - 1)..3 * (i - 1) + 2];
      }
      forall i | 1 <= i < |ts| - 1
        ensures s[3 * i + 2] == ' '
      {
        assert s[3 * i + 2] == rest[3 * (i - 1) + 2];
      }
    }
  }

  function MagicText(id: ElfIdent): string {
    Join(HexTokens(id.magic + id.padding), " ")
  }

  /**
   * The Magic line shows 11 bytes, the magic number then the padding, as two
   * lowercase hex digits each, separated by single spaces; the class, data,
   * version and ABI bytes in between are not shown.
   */
  lemma MagicTextLayout(id: ElfIdent)
    requires id.WellFormed()
    ensures |MagicText(id)| == 32
    ensures forall i :: 0 <= i < 4 ==> MagicText(id)[3 * i..3 * i + 2] == Hex2(id.magic[i] as nat)
    ensures forall i :: 0 <= i < 7 ==> MagicText(id)[12 + 3 * i..12 + 3 * i + 2] == Hex2(id.padding[i] as nat)
    ensures forall i :: 0 <= i < 10 ==> MagicText(id)[3 * i + 2] == ' '
  {
    var bs := id.magic + id.padding;
    var ts := HexTokens(bs);
    JoinPairs(ts);
    forall i | 0 <= i < 4
      ensures MagicText(id)[3 * i..3 * i + 2] == Hex2(id.magic[i] as nat)
    {
      assert bs[i] == id.magic[i];
    }
    forall i | 0 <= i < 7
      ensures MagicText(id)[12 + 3 * i..12 + 3 * i + 2] == Hex2(id.padding[i] as nat)
    {
      assert 12 + 3 * i == 3 * (4 + i);
      assert bs[4 + i] == id.padding[i];
    }
  }

  // The identification lines.

  function ClassText(c: byte): (s: string)
    ensures s == "Unknown" <==> c != 1 && c != 2
  {
    if c == 1 then "ELF32" else if c == 2 then "ELF64" else "Unknown"
  }

  function DataText(d: byte): (s: string)
    ensures s == "Unknown" <==> d != 1 && d != 2
  {
    if d == 1 then "2's complement, little endian"
    else if d == 2 then "2's complement, big endian"
    else "Unknown"
  }

  /** The label of each identification line: the text before its value. */
  const IdentLabels: seq<string> := [
    "  Magic:   ",
    "  Class:                             ",
    "  Data:                              ",
    "  Version:                           ",
    "  OS/ABI:                            ",
    "  ABI Version:                       "]

  /** The ABI line never depends on `os_abi`. */
  const OsAbiText := "UNIX - System V"
  const CurrentSuffix := " (current)"

  function IdentLines(id: ElfIdent): (ls: seq<string>)
    ensures |ls| == |IdentLabels|
  {
    [ IdentLabels[0] + MagicText(id),
      IdentLabels[1] + ClassText(id.elfClass),
      IdentLabels[2] + DataText(id.data),
      IdentLabels[3] + Decimal(id.version as nat) + CurrentSuffix,
      IdentLabels[4] + OsAbiText,
      IdentLabels[5] + Decimal(id.abiVersion as nat) ]
  }

  // The header lines, written once for both layouts.

  /** The fields `display_header!` reads; both layouts provide all of them. */
  datatype HeaderFields = HeaderFields(
    eType: ElfType,
    machine: u16,
    version: u32,
    entry: nat,
    phoff: nat,
    shoff: nat,
    flags: u32,
    ehsize: u16,
    phentsize: u16,
    phnum: u16,
    shentsize: u16,
    shnum: u16,
    shstrndx: u16)

  /** The field values of either layout, at their own width. */
  function Fields(h: ElfHeader): (v: HeaderFields)
    ensures h.Elf32? ==> v.entry < 0x1_0000_0000 && v.phoff < 0x1_0000_0000 && v.shoff < 0x1_0000_0000
    ensures h.Elf64? ==> v.entry < 0x1_0000_0000_0000_0000 && v.phoff < 0x1_0000_0000_0000_0000 && v.shoff < 0x1_0000_0000_0000_0000
  {
    match h
    case Elf32(x) =>
      HeaderFields(x.eType, x.machine, x.version, x.entry as nat, x.phoff as nat, x.shoff as nat,
                   x.flags, x.ehsize, x.phentsize, x.phnum, x.shentsize, x.shnum, x.shstrndx)
    case Elf64(x) =>
      HeaderFields(x.eType, x.machine, x.version, x.entry as nat, x.phoff as nat, x.shoff as nat,
                   x.flags, x.ehsize, x.phentsize, x.phnum, x.shentsize, x.shnum, x.shstrndx)
  }

  /** The label of each header line: the text before its value. */
  const HeaderLabels: seq<string> := [
    "  Type:                              ",
    "  Machine:                           ",
    "  Version:                           ",
    "  Entry point address:               0x",
    "  Start of program headers:          ",
    "  Start of section headers:          ",
    "  Flags:                             0x",
    "  Size of this header:               ",
    "  Size of program headers:           ",
    "  Number of program headers:         ",
    "  Size of section headers:           ",
    "  Number of section headers:         ",
    "  Section header string table index: "]

  const IntoFileSuffix := " (bytes into file)"
  const BytesSuffix := " (bytes)"

  /** `display_header!`. */
  function HeaderLines(v: HeaderFields, machineName: u16 -> string): (ls: seq<string>)
    ensures |ls| == |HeaderLabels|
  {
    [ HeaderLabels[0] + ElfTypeText(v.eType),
      HeaderLabels[1] + machineName(v.machine),
      HeaderLabels[2] + Decimal(v.version as nat),
      HeaderLabels[3] + Hex(v.entry),
      HeaderLabels[4] + Decimal(v.phoff) + IntoFileSuffix,
      HeaderLabels[5] + Decimal(v.shoff) + IntoFileSuffix,
      HeaderLabels[6] + Hex(v.flags as nat),
      HeaderLabels[7] + Decimal(v.ehsize as nat) + BytesSuffix,
      HeaderLabels[8] + Decimal(v.phentsize as nat) + BytesSuffix,
      HeaderLabels[9] + Decimal(v.phnum as nat),
      HeaderLabels[10] + Decimal(v.shentsize as nat) + BytesSuffix,
      HeaderLabels[11] + Decimal(v.shnum as nat),
      HeaderLabels[12] + Decimal(v.shstrndx as nat) ]
  }

  const Title := "ELF Header:"

  /** The lines `ElfFile`'s `Display` writes, without their newlines. */
  function ReportLines(f: ElfFile, machineName: u16 -> string): (ls: seq<string>)
    ensures |ls| == 1 + |IdentLabels| + |HeaderLabels|
  {
    [Title] + IdentLines(f.ident) + HeaderLines(Fields(f.header), machineName)
  }

  /** Each line followed by a newline, as `writeln!` writes it. */
  function Unlines(ls: seq<string>): string {
    if ls == [] then "" else ls[0] + "\n" + Unlines(ls[1..])
  }

  /** `ElfFile`'s `Display`. */
  function Report(f: ElfFile, machineName: u16 -> string): string {
    Unlines(ReportLines(f, machineName))
  }

  // What the report tells apart and what it does not.

  /** A line that is a label, a value and a suffix gives back its value. */
  lemma CancelAffixes(p: string, x: string, y: string, q: string)
    requires p + x + q == p + y + q
    ensures x == y
  {
    var s, t := p + x + q, p + y + q;
    assert x == s[|p|..|p| + |x|];
    assert y == t[|p|..|p| + |y|];
  }

  lemma CancelPrefix(p: string, x: string, y: string)
    requires p + x == p + y
    ensures x == y
  {
    CancelAffixes(p, x, y, "");
  }

  /**
   * Equal header lines come from equal fields: every field is shown in full,
   * and only the machine code is shown through its name.
   */
  lemma HeaderLinesDetermine(v: HeaderFields, w: HeaderFields, machineName: u16 -> string)
    requires HeaderLines(v, machineName) == HeaderLines(w, machineName)
    ensures machineName(v.machine) == machineName(w.machine)
    ensures v == w.(machine := v.machine)
  {
    var lv, lw := HeaderLines(v, machineName), HeaderLines(w, machineName);
    assert lv[0] == lw[0] && lv[1] == lw[1] && lv[2] == lw[2] && lv[3] == lw[3];
    CancelPrefix(HeaderLabels[0], ElfTypeText(v.eType), ElfTypeText(w.eType));
    ElfTypeTextInjective(v.eType, w.eType);
    CancelPrefix(HeaderLabels[1], machineName(v.machine), machineName(w.machine));
    CancelPrefix(HeaderLabels[2], Decimal(v.version as nat), Decimal(w.version as nat));
    CancelPrefix(HeaderLabels[3], Hex(v.entry), Hex(w.entry));
    assert lv[4] == lw[4] && lv[5] == lw[5] && lv[6] == lw[6];
    CancelAffixes(HeaderLabels[4], Decimal(v.phoff), Decimal(w.phoff), IntoFileSuffix);
    CancelAffixes(HeaderLabels[5], Decimal(v.shoff), Decimal(w.shoff), IntoFileSuffix);
    CancelPrefix(HeaderLabels[6], Hex(v.flags as nat), Hex(w.flags as nat));
    assert lv[7] == lw[7] && lv[8] == lw[8] && lv[9] == lw[9];
    CancelAffixes(HeaderLabels[7], Decimal(v.ehsize as nat), Decimal(w.ehsize as nat), BytesSuffix);
    CancelAffixes(HeaderLabels[8], Decimal(v.phentsize as nat), Decimal(w.phentsize as nat), BytesSuffix);
    CancelPrefix(HeaderLabels[9], Decimal(v.phnum as nat), Decimal(w.phnum as nat));
    assert lv[10] == lw[10] && lv[11] == lw[11] && lv[12] == lw[12];
    CancelAffixes(HeaderLabels[10], Decimal(v.shentsize as nat), Decimal(w.shentsize as nat), BytesSuffix);
    CancelPrefix(HeaderLabels[11], Decimal(v.shnum as nat), Decimal(w.shnum as nat));
    CancelPrefix(HeaderLabels[12], Decimal(v.shstrndx as nat), Decimal(w.shstrndx as nat));
  }

  /** Equal Magic lines come from equal magic and padding bytes. */
  lemma MagicTextDetermines(a: ElfIdent, b: ElfIdent)
    requires a.WellFormed() && b.WellFormed()
    requires MagicText(a) == MagicText(b)
    ensures a.magic == b.magic && a.padding == b.padding
  {
    MagicTextLayout(a);
    MagicTextLayout(b);
    forall i | 0 <= i < 4
      ensures a.magic[i] == b.magic[i]
    {
      assert Hex2(a.magic[i] as nat) == Hex2(b.magic[i] as nat);
    }
    forall i | 0 <= i < 7
      ensures a.padding[i] == b.padding[i]
    {
      assert Hex2(a.padding[i] as nat) == Hex2(b.padding[i] as nat);
    }
  }

  /**
   * Equal identification lines come from identifications that agree on every
   * byte shown: the magic, the padding, both version bytes, and the class and
   * data bytes unless both are outside 1..2.
   */
  lemma IdentLinesDetermine(a: ElfIdent, b: ElfIdent)
    requires a.WellFormed() && b.WellFormed()
    requires IdentLines(a) == IdentLines(b)
    ensures a.magic == b.magic && a.padding == b.padding
    ensures a.version == b.version && a.abiVersion == b.abiVersion
    ensures a.elfClass == b.elfClass || (a.elfClass != 1 && a.elfClass != 2 && b.elfClass != 1 && b.elfClass != 2)
    ensures a.data == b.data || (a.data != 1 && a.data != 2 && b.data != 1 && b.data != 2)
  {
    var la, lb := IdentLines(a), IdentLines(b);
    assert la[0] == lb[0] && la[1] == lb[1] && la[2] == lb[2];
    CancelPrefix(IdentLabels[0], MagicText(a), MagicText(b));
    MagicTextDetermines(a, b);
    CancelPrefix(IdentLabels[1], ClassText(a.elfClass), ClassText(b.elfClass));
    CancelPrefix(IdentLabels[2], DataText(a.data), DataText(b.data));
    assert la[3] == lb[3] && la[5] == lb[5];
    CancelAffixes(IdentLabels[3], Decimal(a.version as nat), Decimal(b.version as nat), CurrentSuffix);
    CancelPrefix(IdentLabels[5], Decimal(a.abiVersion as nat), Decimal(b.abiVersion as nat));
  }

  /** Two files with the same report agree on everything the report shows. */
  lemma ReportDetermines(f: ElfFile, g: ElfFile, machineName: u16 -> string)
    requires f.ident.WellFormed() && g.ident.WellFormed()
    requires ReportLines(f, machineName) == ReportLines(g, machineName)
    ensures f.ident.magic == g.ident.magic && f.ident.padding == g.ident.padding
    ensures f.ident.version == g.ident.version && f.ident.abiVersion == g.ident.abiVersion
    ensures f.ident.elfClass == g.ident.elfClass ||
      (f.ident.elfClass != 1 && f.ident.elfClass != 2 && g.ident.elfClass != 1 && g.ident.elfClass != 2)
    ensures f.ident.data == g.ident.data ||
      (f.ident.data != 1 && f.ident.data != 2 && g.ident.data != 1 && g.ident.data != 2)
    ensures var v, w := Fields(f.header), Fields(g.header);
      v == w.(machine := v.machine) && machineName(v.machine) == machineName(w.machine)
  {
    var lf, lg := ReportLines(f, machineName), ReportLines(g, machineName);
    assert IdentLines(f.ident) == lf[1..7] == lg[1..7] == IdentLines(g.ident);
    IdentLinesDetermine(f.ident, g.ident);
    assert HeaderLines(Fields(f.header), machineName) == lf[7..] == lg[7..] == HeaderLines(Fields(g.header), machineName);
    HeaderLinesDetermine(Fields(f.header), Fields(g.header), machineName);
  }

  /** `Fields` loses nothing: the layout, the identification and the fields give back the header. */
  lemma FieldsDetermine(a: ElfHeader, b: ElfHeader)
    ensures a.Elf32? == b.Elf32? && a.Ident() == b.Ident() && Fields(a) == Fields(b) ==> a == b
  {
  }

  /**
   * The report of a file that passes the checks shows all of it except the
   * `os_abi` byte, the machine code beyond its name, and which unknown data
   * byte a big-endian host accepted: two such files with the same report,
   * the same `os_abi` and the same data byte are the same file, when distinct
   * machine codes have distinct names.
   */
  lemma ReportDeterminesFile(f: ElfFile, g: ElfFile, hostLittle: bool, machineName: u16 -> string)
    requires Valid(f, hostLittle) && Valid(g, hostLittle)
    requires forall x: u16, y: u16 :: machineName(x) == machineName(y) ==> x == y
    requires ReportLines(f, machineName) == ReportLines(g, machineName)
    ensures f.ident.data == 1 || f.ident.data == 2 ==> f.ident.data == g.ident.data
    ensures f.ident.osAbi == g.ident.osAbi && f.ident.data == g.ident.data ==> f == g
  {
    ReportDetermines(f, g, machineName);
    if f.ident.osAbi == g.ident.osAbi && f.ident.data == g.ident.data {
      assert f.ident == g.ident;
      FieldsDetermine(f.header, g.header);
    }
  }

  /** The report never depends on the `os_abi` byte. */
  lemma ReportIgnoresOsAbi(f: ElfFile, osAbi: byte, machineName: u16 -> string)
    ensures ReportLines(f.(ident := f.ident.(osAbi := osAbi)), machineName) == ReportLines(f, machineName)
  {
  }
}
