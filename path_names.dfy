/** The parts of `pathlib` and of Python's `str(int)` that the renaming
    planner relies on: a path as a directory plus a base name, the split of a
    base name into stem and suffix, and the decimal spelling of a counter. */
module PathNames {

  /** `dossier / nom` for a plain base name: the directory the path lies in
      and the final component (`Path.name`). */
  datatype FsPath = FsPath(dir: string, name: string)

  /** Index of the last '.' in `s`, or -1 when there is none (`str.rfind`). */
  function LastDot(s: string): (i: int)
    ensures -1 <= i < |s|
    ensures i >= 0 ==> s[i] == '.'
    ensures forall j :: i < j < |s| ==> s[j] != '.'
  {
    if |s| == 0 then -1
    else if s[|s| - 1] == '.' then |s| - 1
    else LastDot(s[..|s| - 1])
  }

  /** pathlib counts the last dot as the start of a suffix only when it is
      neither the first nor the last character of the name. */
  predicate HasSuffix(name: string)
  {
    0 < LastDot(name) < |name| - 1
  }

  /** `Path(name).suffix`: from the last dot to the end, or empty. */
  function Suffix(name: string): string
  {
    var i := LastDot(name);
    if 0 < i < |name| - 1 then name[i..] else ""
  }

  /** `Path(name).stem`: the name without its suffix. */
  function Stem(name: string): string
  {
    var i := LastDot(name);
    if 0 < i < |name| - 1 then name[..i] else name
  }

  /** The suffix is non-empty exactly when pathlib sees one; it is then a
      dot followed by at least one character, none of them a dot, and it is
      a proper tail of the name. */
  lemma SuffixShape(name: string)
    ensures var ext := Suffix(name);
      && (HasSuffix(name) <==> ext != [])
      && (ext != [] ==> 2 <= |ext| < |name| && ext[0] == '.')
      && (forall j :: 0 < j < |ext| ==> ext[j] != '.')
      && ext == name[|name| - |ext|..]
  {
  }

  /** Stem and suffix put back together give the name; the stem is empty
      only for the empty name. */
  lemma StemSuffixSplit(name: string)
    ensures Stem(name) + Suffix(name) == name
    ensures |Stem(name)| == 0 <==> |name| == 0
  {
  }

  function DigitChar(d: nat): (c: char)
    requires d < 10
    ensures '0' <= c <= '9'
  {
    "0123456789"[d]
  }

  /** `str(n)` for a natural number: its decimal digits, most significant
      first, without leading zeros. */
  function Decimal(n: nat): string
  {
    if n < 10 then [DigitChar(n)] else Decimal(n / 10) + [DigitChar(n % 10)]
  }

  /** The spelling is a non-empty run of digits, a single digit exactly for
      numbers below ten, ending in the number's last decimal digit. */
  lemma {:induction false} DecimalShape(n: nat)
    ensures var s := Decimal(n);
      && 1 <= |s|
      && (n < 10 <==> |s| == 1)
      && (forall j :: 0 <= j < |s| ==> '0' <= s[j] <= '9')
      && s[|s| - 1] == DigitChar(n % 10)
  {
    if 10 <= n {
      DecimalShape(n / 10);
    }
  }

  lemma DigitCharInjective(a: nat, b: nat)
    requires a < 10 && b < 10
    requires DigitChar(a) == DigitChar(b)
    ensures a == b
  {
  }

  /** Distinct counters are spelt differently. */
  lemma {:induction false} DecimalInjective(a: nat, b: nat)
    requires Decimal(a) == Decimal(b)
    ensures a == b
  {
    var s := Decimal(a);
    DecimalShape(a);
    DecimalShape(b);
    DigitCharInjective(a % 10, b % 10);
    if 10 <= a {
      assert 10 <= b;
      assert Decimal(a / 10) == s[..|s| - 1] == Decimal(b / 10);
      DecimalInjective(a / 10, b / 10);
    }
  }
}
