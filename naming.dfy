/** Names of the dump files `do_copy` writes: `dump-{seq:05d}.{format.lower()}`. */
module Naming {
  import opened Decimal

  /** The three `--format` choices; the name is what `COPY ... WITH` receives. */
  datatype Format = Csv | Text | Binary {
    function Name(): string {
      match this
      case Csv => "CSV"
      case Text => "TEXT"
      case Binary => "BINARY"
    }

    /** `format.lower()`: the file extension. */
    function Extension(): (e: string)
      ensures |e| == |Name()|
      ensures forall i :: 0 <= i < |e| ==> e[i] == LowerChar(Name()[i])
    {
      Lower(Name())
    }
  }

  function LowerChar(c: char): char {
    if 'A' <= c <= 'Z' then (c as int - 'A' as int + 'a' as int) as char else c
  }

  /** ASCII lower-casing, which is what `str.lower()` does on the format names. */
  function Lower(s: string): (r: string)
    ensures |r| == |s|
    ensures forall i :: 0 <= i < |s| ==> r[i] == LowerChar(s[i])
  {
    if s == [] then [] else [LowerChar(s[0])] + Lower(s[1..])
  }

  /** The `0{width}d` format of a non-negative number: its digits, padded on the
      left with zeros up to `width` characters, never truncated. */
  function ZeroPad(n: nat, width: nat): (r: string)
    ensures |r| == if |Digits(n)| < width then width else |Digits(n)|
    ensures AllDigits(r)
    ensures Value(r) == n
  {
    var d := Digits(n);
    ValueOfDigits(n);
    if |d| < width then
      ValueIgnoresLeadingZeros(width - |d|, d);
      Zeros(width - |d|) + d
    else d
  }

  const Prefix := "dump-"
  const PadWidth := 5

  /** The file name job number `number` writes in the chosen format. */
  function DumpFileName(number: nat, format: Format): string {
    Prefix + ZeroPad(number, PadWidth) + "." + format.Extension()
  }

  /** The four parts of a concatenation sit where their lengths put them. */
  lemma Parts(a: string, b: string, c: string, d: string)
    ensures var s := a + b + c + d;
      && s[..|a|] == a
      && s[|a|..|a| + |b|] == b
      && s[|a| + |b|..|a| + |b| + |c|] == c
      && s[|a| + |b| + |c|..] == d
      && s[|a|..] == b + c + d
  {
  }

  /** The length of the run of digits a string starts with. */
  function DigitRun(s: string): (n: nat)
    ensures n <= |s|
  {
    if s != [] && IsDigit(s[0]) then 1 + DigitRun(s[1..]) else 0
  }

  /** Digits followed by a non-digit: the run is exactly the digits. */
  lemma {:induction false} DigitRunOf(p: string, t: string)
    requires AllDigits(p) && t != [] && !IsDigit(t[0])
    ensures DigitRun(p + t) == |p|
    decreases |p|
  {
    if p != [] {
      assert (p + t)[1..] == p[1..] + t;
      DigitRunOf(p[1..], t);
    }
  }

  /** The parts of a dump file name: the prefix, at least five digits that read
      back as the job number, a dot, and the lower-cased format name. */
  lemma {:induction false} DumpFileNameShape(number: nat, format: Format)
    ensures var name := DumpFileName(number, format);
      var k := |name| - |format.Extension()| - 1;
      && 10 <= k
      && name[..5] == "dump-"
      && AllDigits(name[5..k])
      && Value(name[5..k]) == number
      && name[k] == '.'
      && name[k + 1..] == format.Extension()
  {
    var p := ZeroPad(number, PadWidth);
    Parts(Prefix, p, ".", format.Extension());
  }

  /** A name of the shape prefix, digits, dot, extension determines its digits
      and its extension. */
  lemma NamePartsInjective(p: string, e: string, q: string, x: string)
    requires AllDigits(p) && AllDigits(q)
    requires Prefix + p + "." + e == Prefix + q + "." + x
    ensures p == q && e == x
  {
    var name := Prefix + p + "." + e;
    Parts(Prefix, p, ".", e);
    Parts(Prefix, q, ".", x);
    assert p + "." + e == p + ("." + e) && q + "." + x == q + ("." + x);
    DigitRunOf(p, "." + e);
    DigitRunOf(q, "." + x);
    assert |p| == DigitRun(name[5..]) == |q|;
  }

  /** Distinct jobs never write to the same file, and neither do distinct formats:
      the name determines both the job number and the format. */
  lemma DumpFileNameInjective(n: nat, f: Format, m: nat, g: Format)
    requires DumpFileName(n, f) == DumpFileName(m, g)
    ensures n == m && f == g
  {
    NamePartsInjective(ZeroPad(n, PadWidth), f.Extension(), ZeroPad(m, PadWidth), g.Extension());
    ExtensionInjective(f, g);
  }

  lemma ExtensionInjective(f: Format, g: Format)
    requires f.Extension() == g.Extension()
    ensures f == g
  {
  }
}
