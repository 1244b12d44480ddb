/** File names: the numbered table files and the manifest that lists them. */
module Names {
  import opened Bytes
  import opened Storage

  // ---------- numbered table files ----------

  function DigitOf(d: nat): char
    requires d < 10
  {
    '0' + d as char
  }

  predicate IsDigit(c: char)
  {
    '0' <= c <= '9'
  }

  function DigitValue(c: char): (d: nat)
    requires IsDigit(c)
    ensures d < 10
  {
    (c - '0') as nat
  }

  /** The number in decimal, as a stream prints it. */
  function Decimal(n: nat): (s: string)
    ensures s != []
  {
    if n < 10 then [DigitOf(n)] else Decimal(n / 10) + [DigitOf(n % 10)]
  }

  /** Filled up with zeros on the left to six places, and no further. */
  function Filled(s: string): (f: string)
    ensures f != []
  {
    if |s| >= 6 then s else seq(6 - |s|, _ => '0') + s
  }

  function FileName(n: nat): Name
  {
    "sst_" + Filled(Decimal(n)) + ".sst"
  }

  /** How many digits s starts with. */
  function DigitCount(s: string): (n: nat)
    ensures n <= |s|
    ensures forall i :: 0 <= i < n ==> IsDigit(s[i])
  {
    if s == [] || !IsDigit(s[0]) then 0 else 1 + DigitCount(s[1..])
  }

  function DigitsValue(s: string): nat
    requires forall i :: 0 <= i < |s| ==> IsDigit(s[i])
  {
    if s == [] then 0 else 10 * DigitsValue(s[..|s| - 1]) + DigitValue(s[|s| - 1])
  }

  datatype Option<T> = None | Some(value: T)

  /** Where the first dot is, or the length. */
  function DotAt(s: string): (n: nat)
    ensures n <= |s|
  {
    if s == [] || s[0] == '.' then 0 else 1 + DotAt(s[1..])
  }

  /** The number in a name that starts with the table prefix: the digits up to the first dot. */
  function ParseNumber(name: Name): Option<nat>
  {
    if !("sst_" <= name) then None
    else
      var digits := name[4..][..DotAt(name[4..])];
      var n := DigitCount(digits);
      if n == 0 then None else Some(DigitsValue(digits[..n]))
  }

  predicate AllDigits(s: string)
  {
    forall i :: 0 <= i < |s| ==> IsDigit(s[i])
  }

  lemma {:induction false} DecimalValue(n: nat)
    ensures AllDigits(Decimal(n)) && DigitsValue(Decimal(n)) == n
  {
    if n < 10 {
      assert Decimal(n)[..0] == [];
      assert DigitsValue([]) == 0;
      DigitRoundTrip(n);
    } else {
      DecimalValue(n / 10);
      DigitRoundTrip(n % 10);
      var s := Decimal(n);
      assert s[..|s| - 1] == Decimal(n / 10);
    }
  }

  lemma DigitRoundTrip(d: nat)
    requires d < 10
    ensures IsDigit(DigitOf(d)) && DigitValue(DigitOf(d)) == d
  {
  }

  lemma {:induction false} LeadingZero(s: string)
    requires AllDigits(s)
    ensures AllDigits(['0'] + s) && DigitsValue(['0'] + s) == DigitsValue(s)
  {
    var z := ['0'] + s;
    if s == [] {
      assert z[..0] == [];
      assert DigitsValue(z) == 10 * DigitsValue([]) + DigitValue('0');
    } else {
      assert z[..|z| - 1] == ['0'] + s[..|s| - 1];
      LeadingZero(s[..|s| - 1]);
    }
  }

  lemma {:induction false} LeadingZeros(k: nat, s: string)
    requires AllDigits(s)
    ensures var z := seq(k, _ => '0') + s;
            AllDigits(z) && DigitsValue(z) == DigitsValue(s)
  {
    if k == 0 {
      assert seq(0, _ => '0') + s == s;
    } else {
      LeadingZeros(k - 1, s);
      LeadingZero(seq(k - 1, _ => '0') + s);
      assert seq(k, _ => '0') + s == ['0'] + (seq(k - 1, _ => '0') + s);
    }
  }

  lemma FilledValue(n: nat)
    ensures AllDigits(Filled(Decimal(n))) && DigitsValue(Filled(Decimal(n))) == n
  {
    DecimalValue(n);
    var s := Decimal(n);
    if |s| < 6 {
      LeadingZeros(6 - |s|, s);
    }
  }

  lemma {:induction false} DotAfterDigits(s: string, rest: string)
    requires AllDigits(s)
    ensures DotAt(s + (['.'] + rest)) == |s|
  {
    if s == [] {
      assert s + (['.'] + rest) == ['.'] + rest;
    } else {
      assert (s + (['.'] + rest))[1..] == s[1..] + (['.'] + rest);
      DotAfterDigits(s[1..], rest);
    }
  }

  lemma {:induction false} CountDigits(s: string)
    requires AllDigits(s)
    ensures DigitCount(s) == |s|
  {
    if s != [] {
      CountDigits(s[1..]);
    }
  }

  /** Every generated name gives its number back, also past six digits. */
  lemma NumberRoundTrip(n: nat)
    ensures ParseNumber(FileName(n)) == Some(n)
  {
    hide Decimal, DigitsValue, Filled;
    var digits := Filled(Decimal(n));
    FilledValue(n);
    assert FileName(n)[4..] == digits + (['.'] + "sst");
    DotAfterDigits(digits, "sst");
    assert (digits + (['.'] + "sst"))[..|digits|] == digits;
    CountDigits(digits);
    assert digits[..|digits|] == digits;
  }

  lemma {:induction false} NoLeadingZero(n: nat)
    ensures Decimal(n)[0] == '0' ==> n == 0
    ensures n == 0 ==> |Decimal(n)| == 1
  {
    if n >= 10 {
      NoLeadingZero(n / 10);
    }
  }

  /** A generated name is the prefix, the number in decimal, filled up with zeros to six digits but no
      further, and the suffix. */
  lemma FileNameShape(n: nat)
    ensures var name := FileName(n);
            && |name| >= 14 && name[..4] == "sst_" && name[|name| - 4..] == ".sst"
            && AllDigits(name[4..|name| - 4]) && DigitsValue(name[4..|name| - 4]) == n
            && (|name| > 14 ==> name[4] != '0')
  {
    hide Decimal, DigitsValue;
    var name, digits := FileName(n), Filled(Decimal(n));
    FilledValue(n);
    NoLeadingZero(n);
    assert name[4..|name| - 4] == digits;
  }

  /** Different numbers have different files. */
  lemma FileNamesDiffer(m: nat, n: nat)
    requires m != n
    ensures FileName(m) != FileName(n)
  {
    NumberRoundTrip(m);
    NumberRoundTrip(n);
  }

  /** A list of generated names, with strictly increasing numbers, all below next. */
  predicate Numbered(names: seq<Name>, next: nat)
  {
    && (forall i :: 0 <= i < |names| ==> IsTableName(names[i], next))
    && (forall i, j :: 0 <= i < j < |names| ==> NumberOf(names[i]) < NumberOf(names[j]))
  }

  ghost predicate Ordered(names: seq<Name>)
  {
    exists next :: Numbered(names, next)
  }

  function NumberOf(name: Name): nat
  {
    match ParseNumber(name)
    case None => 0
    case Some(n) => n
  }

  predicate IsTableName(name: Name, next: nat)
  {
    NumberOf(name) < next && name == FileName(NumberOf(name))
  }

  /** The highest number of the files, or zero. */
  function MaxNumber(names: seq<Name>): nat
  {
    if names == [] then 0 else
      var before := MaxNumber(names[..|names| - 1]);
      if NumberOf(names[|names| - 1]) > before then NumberOf(names[|names| - 1]) else before
  }

  lemma {:induction false} MaxNumberBounds(names: seq<Name>)
    ensures forall n :: n in names ==> NumberOf(n) <= MaxNumber(names)
    ensures MaxNumber(names) == 0 || exists n :: n in names && NumberOf(n) == MaxNumber(names)
  {
    hide NumberOf;
    if names != [] {
      MaxNumberBounds(names[..|names| - 1]);
      assert names[|names| - 1] in names;
    }
  }

  lemma NumberedNext(names: seq<Name>, next: nat)
    requires Numbered(names, next)
    ensures FileName(next) !in names
    ensures Numbered(names + [FileName(next)], next + 1) && Numbered([FileName(next)], next + 1) && Numbered(names, next + 1)
  {
    hide ParseNumber, FileName;
    NumberRoundTrip(next);
    forall i | 0 <= i < |names|
      ensures names[i] != FileName(next)
    {
      assert IsTableName(names[i], next);
    }
  }

  /** One more name with a number above the others. */
  lemma NumberedSnoc(names: seq<Name>, name: Name, next: nat)
    requires Numbered(names, next) && IsTableName(name, next)
    requires forall i :: 0 <= i < |names| ==> NumberOf(names[i]) < NumberOf(name)
    ensures Numbered(names + [name], next)
  {
    hide ParseNumber, FileName;
  }

  lemma NumberedBelow(names: seq<Name>, above: nat, next: nat)
    requires Numbered(names, above) && forall i :: 0 <= i < |names| ==> NumberOf(names[i]) < next
    ensures Numbered(names, next)
  {
    hide ParseNumber, FileName;
  }

  // ---------- the other files ----------

  const MANIFEST: Name := "manifest.txt"
  const MANIFEST_TEMP: Name := MANIFEST + ".tmp"
  const WAL: Name := "wal.log"

  /** Table files and their temporary versions are none of the other files. */
  lemma TableNamesApart(n: nat, suffix: string)
    ensures FileName(n) + suffix != MANIFEST && FileName(n) + suffix != MANIFEST_TEMP && FileName(n) + suffix != WAL
  {
    assert (FileName(n) + suffix)[0] == 's';
  }

  lemma SuffixedNamesApart(n: nat, m: nat)
    ensures FileName(n) + ".compact_tmp" != FileName(m)
  {
    var a, b := FileName(n) + ".compact_tmp", FileName(m);
    assert a[|a| - 1] == 'p' && b[|b| - 1] == 't';
  }

  // ---------- the manifest ----------

  function Text(name: Name): (b: Bytes)
    ensures |b| == |name|
  {
    seq(|name|, i requires 0 <= i < |name| => name[i] as int % 256)
  }

  function Untext(b: Bytes): (name: Name)
    ensures |name| == |b|
  {
    seq(|b|, i requires 0 <= i < |b| => b[i] as char)
  }

  const NEWLINE: byte := 10

  /** Length of the line that s starts with. */
  function LineLength(s: Bytes): (n: nat)
    ensures n <= |s|
    ensures n < |s| ==> s[n] == NEWLINE
  {
    if s == [] || s[0] == NEWLINE then 0 else 1 + LineLength(s[1..])
  }

  /** The non-empty lines; a last line counts even without its newline. */
  function Lines(s: Bytes): seq<Name>
    decreases |s|
  {
    if s == [] then [] else
      var n := LineLength(s);
      (if n == 0 then [] else [Untext(s[..n])]) + Lines(if n < |s| then s[n + 1..] else [])
  }

  lemma LinesUnfold(s: Bytes)
    requires s != []
    ensures var n := LineLength(s);
            Lines(s) == (if n == 0 then [] else [Untext(s[..n])]) + Lines(if n < |s| then s[n + 1..] else [])
  {
    hide LineLength, Untext;
  }

  function ManifestText(names: seq<Name>): Bytes
  {
    if names == [] then [] else ManifestText(names[..|names| - 1]) + Text(names[|names| - 1]) + [NEWLINE]
  }

  /** A name that survives being a line of text. */
  predicate PlainName(name: Name)
  {
    name != [] && forall i :: 0 <= i < |name| ==> name[i] as int < 256 && name[i] as int != 10
  }

  lemma {:induction false} LineOf(line: Bytes, rest: Bytes)
    requires NEWLINE !in line
    ensures LineLength(line + ([NEWLINE] + rest)) == |line|
  {
    if line == [] {
      assert line + ([NEWLINE] + rest) == [NEWLINE] + rest;
    } else {
      assert (line + ([NEWLINE] + rest))[1..] == line[1..] + ([NEWLINE] + rest);
      LineOf(line[1..], rest);
    }
  }

  lemma TextRoundTrip(name: Name)
    requires PlainName(name)
    ensures NEWLINE !in Text(name) && Untext(Text(name)) == name
  {
    forall i | 0 <= i < |name|
      ensures Untext(Text(name))[i] == name[i]
    {
    }
  }

  lemma {:induction false} LastLineOf(line: Bytes)
    requires NEWLINE !in line
    ensures LineLength(line) == |line|
  {
    if line != [] {
      LastLineOf(line[1..]);
    }
  }

  /** What a text means: each line that is not empty counts, the last one even without its newline. */
  lemma LinesMean(line: Bytes, rest: Bytes)
    requires 10 !in line
    ensures Lines(line + [10] + rest) == (if line == [] then [] else [Untext(line)]) + Lines(rest)
    ensures Lines(line) == if line == [] then [] else [Untext(line)]
  {
    hide Untext, LineLength;
    var s := line + ([NEWLINE] + rest);
    assert line + [10] + rest == s;
    LineOf(line, rest);
    assert s[..|line|] == line && s[|line| + 1..] == rest;
    LastLineOf(line);
    assert line[..|line|] == line;
  }

  lemma LinesFirst(name: Name, rest: Bytes)
    requires PlainName(name)
    ensures Lines(Text(name) + ([NEWLINE] + rest)) == [name] + Lines(rest)
  {
    hide Text, Untext, Lines;
    TextRoundTrip(name);
    LinesMean(Text(name), rest);
    assert Text(name) + ([NEWLINE] + rest) == Text(name) + [10] + rest;
  }

  lemma {:induction false} LinesOfMore(names: seq<Name>, rest: Bytes)
    requires forall i :: 0 <= i < |names| ==> PlainName(names[i])
    ensures Lines(ManifestText(names) + rest) == names + Lines(rest)
  {
    hide Text, Lines, PlainName;
    if names == [] {
      assert ManifestText(names) + rest == rest;
      assert names + Lines(rest) == Lines(rest);
    } else {
      var n := |names| - 1;
      var tail := Text(names[n]) + ([NEWLINE] + rest);
      LinesOfMore(names[..n], tail);
      LinesFirst(names[n], rest);
      assert ManifestText(names) + rest == ManifestText(names[..n]) + tail;
      assert names[..n] + ([names[n]] + Lines(rest)) == names + Lines(rest);
    }
  }

  /** The manifest lists what was written to it. */
  lemma ManifestRoundTrip(names: seq<Name>)
    requires forall i :: 0 <= i < |names| ==> PlainName(names[i])
    ensures Lines(ManifestText(names)) == names
  {
    LinesOfMore(names, []);
    assert ManifestText(names) + [] == ManifestText(names);
    assert names + Lines([]) == names;
  }

  lemma TableNamePlain(n: nat)
    ensures PlainName(FileName(n))
  {
    hide Decimal, DigitsValue, Filled;
    FilledValue(n);
    var digits := Filled(Decimal(n));
    forall i | 0 <= i < |FileName(n)|
      ensures FileName(n)[i] as int < 256 && FileName(n)[i] as int != 10
    {
      if 4 <= i < 4 + |digits| {
        assert FileName(n)[i] == digits[i - 4];
        assert IsDigit(digits[i - 4]);
      }
    }
  }

  // ---------- a manifest that was written only in part ----------

  /** How many characters the lines hold. */
  function Bulk(lines: seq<Name>): nat
  {
    if lines == [] then 0 else Bulk(lines[..|lines| - 1]) + |lines[|lines| - 1]|
  }

  lemma {:induction false} BulkFirst(first: Name, lines: seq<Name>)
    ensures Bulk([first] + lines) == |first| + Bulk(lines)
  {
    var all := [first] + lines;
    if lines == [] {
      assert all[..0] == [] && all[0] == first;
    } else {
      BulkFirst(first, lines[..|lines| - 1]);
      assert all[..|all| - 1] == [first] + lines[..|lines| - 1];
    }
  }

  /** The lines of a text and the newlines between them fit into the text. */
  lemma {:induction false} LinesFitIn(s: Bytes)
    ensures Lines(s) != [] ==> Bulk(Lines(s)) + |Lines(s)| - 1 <= |s|
    decreases |s|
  {
    hide LineLength, Untext, Bulk, Lines;
    NoLinesInNothing();
    if s != [] {
      LinesUnfold(s);
      var n := LineLength(s);
      var rest := if n < |s| then s[n + 1..] else [];
      LinesFitIn(rest);
      if n == 0 {
        assert Lines(s) == Lines(rest);
      } else {
        BulkFirst(Untext(s[..n]), Lines(rest));
        NoBulk();
      }
    }
  }

  lemma NoLinesInNothing()
    ensures Lines([]) == []
  {
  }

  lemma NoBulk()
    ensures Bulk([]) == 0
  {
  }

  lemma {:induction false} TextSize(names: seq<Name>)
    ensures |ManifestText(names)| == Bulk(names) + |names|
  {
    hide Text;
    if names != [] {
      TextSize(names[..|names| - 1]);
    }
  }

  lemma {:induction false} LineToTheEnd(line: Bytes)
    requires NEWLINE !in line
    ensures LineLength(line) == |line|
  {
    if line != [] {
      LineToTheEnd(line[1..]);
    }
  }

  lemma LastLine(name: Name)
    requires PlainName(name)
    ensures Lines(Text(name)) == [name]
  {
    hide Text, Untext, LineLength;
    TextRoundTrip(name);
    LineToTheEnd(Text(name));
    assert Text(name)[..|name|] == Text(name);
    assert Lines([]) == [];
  }

  /** A manifest of which only the first k bytes were written lists the same names if and only if
      at most the last newline is missing. */
  lemma ManifestCutIff(names: seq<Name>, k: nat)
    requires (forall i :: 0 <= i < |names| ==> PlainName(names[i])) && k <= |ManifestText(names)|
    ensures Lines(ManifestText(names)[..k]) == names <==> k + 1 >= |ManifestText(names)|
  {
    hide Text, Lines, PlainName, Bulk;
    var text := ManifestText(names);
    TextSize(names);
    LinesFitIn(text[..k]);
    if k == |text| {
      ManifestRoundTrip(names);
      assert text[..k] == text;
    } else if k + 1 == |text| {
      var n := |names| - 1;
      LinesOfMore(names[..n], Text(names[n]));
      LastLine(names[n]);
      assert text[..k] == ManifestText(names[..n]) + Text(names[n]);
      assert names[..n] + [names[n]] == names;
    }
  }

  lemma NumberedPlain(names: seq<Name>, next: nat)
    requires Numbered(names, next)
    ensures forall i :: 0 <= i < |names| ==> PlainName(names[i])
  {
    hide FileName, PlainName, ParseNumber;
    forall i | 0 <= i < |names|
      ensures PlainName(names[i])
    {
      assert IsTableName(names[i], next);
      TableNamePlain(NumberOf(names[i]));
    }
  }

  lemma NumberedRoundTrip(names: seq<Name>, next: nat)
    requires Numbered(names, next)
    ensures Lines(ManifestText(names)) == names
  {
    hide Numbered, PlainName;
    NumberedPlain(names, next);
    ManifestRoundTrip(names);
  }
}
