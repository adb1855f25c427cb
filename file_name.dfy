/** Reading the Knesset number and the protocol type from a transcript's
    file name, such as "25_ptv_123456.docx". */
module FileName {
  import opened Wrappers
  import opened TextUtil

  /** The protocol types the parser tells apart. */
  datatype ProtocolType = Plenary | Committee | Unknown

  /** Why `parse_file_name` raises: `int` rejects the first part
      (ValueError), or there is no second part (IndexError). */
  datatype FileNameError = NotANumber | NoTypeCode

  // ---------------------------------------------------------------------
  // os.path.splitext
  // ---------------------------------------------------------------------

  /** The index of the last occurrence of `c` in `s`, if any. */
  function LastIndexOf(s: string, c: char): (r: Option<nat>)
    ensures r.Some? ==> r.value < |s| && s[r.value] == c
                        && forall k :: r.value < k < |s| ==> s[k] != c
    ensures r.None? ==> c !in s
  {
    if s == [] then None
    else if s[|s| - 1] == c then Some(|s| - 1)
    else LastIndexOf(s[..|s| - 1], c)
  }

  predicate IsDot(c: char) { c == '.' }

  /** The root that `os.path.splitext` returns: the name without its last
      extension. The extension starts at the last dot of the last path
      component, and only when that dot follows a character other than a
      dot within the component (".profile" and "..x" have no extension). */
  function SplitExtRoot(p: string): (root: string)
    ensures root <= p
  {
    var sep := LastIndexOf(p, '/');
    var start := if sep.Some? then sep.value + 1 else 0;
    match LastIndexOf(p, '.')
    case None => p
    case Some(dot) =>
      if dot <= start || Every(p[start..dot], IsDot) then p else p[..dot]
  }

  // ---------------------------------------------------------------------
  // int(str)
  // ---------------------------------------------------------------------

  predicate IsDigitOrUnderscore(c: char) { IsDigit(c) || c == '_' }

  /** The digits `int` accepts: digits, with single underscores allowed
      between two digits. */
  predicate IsDigitGroup(b: string) {
    b != [] && IsDigit(b[0]) && IsDigit(b[|b| - 1]) && Every(b, IsDigitOrUnderscore)
    && forall i :: 0 <= i < |b| - 1 ==> b[i] == '_' ==> b[i + 1] != '_'
  }

  /** Python's `int(s)` for a string, narrowed to ASCII digits: optional
      surrounding whitespace, an optional sign, then a digit group. */
  function ParseInt(s: string): Option<int> {
    var t := Strip(s);
    var negative := t != [] && t[0] == '-';
    var body := if t != [] && (t[0] == '-' || t[0] == '+') then t[1..] else t;
    if !IsDigitGroup(body) then None
    else
      var digits := Filter(IsDigit, body);
      FilterEvery(IsDigit, body);
      var v: int := DigitsValue(digits);
      Some(if negative then -v else v)
  }

  /** The characters a filter keeps satisfy it. */
  lemma {:induction false} FilterEvery(keep: char -> bool, s: string)
    ensures Every(Filter(keep, s), keep)
  {
    if s != [] {
      FilterEvery(keep, s[1..]);
      var h := if keep(s[0]) then [s[0]] else [];
      assert Filter(keep, s) == h + Filter(keep, s[1..]);
    }
  }

  // ---------------------------------------------------------------------
  // parse_file_name
  // ---------------------------------------------------------------------

  /** "ptm" is a plenary session, "ptv" a committee session. */
  function TypeOfCode(code: string): (t: ProtocolType)
    ensures t == Plenary <==> code == "ptm"
    ensures t == Committee <==> code == "ptv"
  {
    if code == "ptm" then Plenary else if code == "ptv" then Committee else Unknown
  }

  /** `parse_file_name`: the first `_`-separated part of the root as an
      integer and the second part as the type code. */
  function ParseFileName(fileName: string): Result<(int, ProtocolType), FileNameError> {
    var parts := SplitOn(SplitExtRoot(fileName), '_');
    match ParseInt(parts[0])
    case None => Failure(NotANumber)
    case Some(n) => if |parts| < 2 then Failure(NoTypeCode) else Success((n, TypeOfCode(parts[1])))
  }

  // ---------------------------------------------------------------------
  // Properties
  // ---------------------------------------------------------------------

  /** A name written as number, type code and further `_` parts, with an
      extension, gives back the number and the type. */
  lemma FileNameRoundTrip(n: nat, code: string, tail: string, ext: string)
    requires '_' !in code && '.' !in code && '/' !in code
    requires '.' !in tail && '/' !in tail && (tail == [] || tail[0] == '_')
    requires '.' !in ext && '/' !in ext
    ensures ParseFileName(DecimalString(n) + "_" + code + tail + "." + ext)
            == Success((n, TypeOfCode(code)))
  {
    var d := DecimalString(n);
    var root := d + "_" + code + tail;
    RootOfName(root, ext);
    DigitsHaveNoSeparator(d);
    RootParts(d, code, tail);
    ParseDecimal(n);
    ParsedParts(root + "." + ext, d, code, n);
  }

  /** A name whose root has no `_` has no type code. */
  lemma MissingTypeCode(n: nat, ext: string)
    requires '.' !in ext && '/' !in ext
    ensures ParseFileName(DecimalString(n) + "." + ext) == Failure(NoTypeCode)
  {
    var d := DecimalString(n);
    RootOfName(d, ext);
    DigitsHaveNoSeparator(d);
    TakeWhileStops(d, d, c => c != '_');
    assert SplitOn(d, '_') == [d];
    ParseDecimal(n);
  }

  /** A name that starts with `_` has an empty first part, which `int`
      rejects. */
  lemma EmptyNumber(rest: string)
    ensures ParseFileName("_" + rest) == Failure(NotANumber)
  {
    var root := SplitExtRoot("_" + rest);
    assert root != [] && root[0] == '_' by {
      RootNotEmpty("_" + rest);
    }
    TakeWhileStops(root, [], c => c != '_');
    assert SplitOn(root, '_')[0] == [];
    assert ParseInt([]) == None;
  }

  /** The root keeps the first character of a name. */
  lemma RootNotEmpty(p: string)
    requires p != []
    ensures SplitExtRoot(p) != [] && SplitExtRoot(p)[0] == p[0]
  {
  }

  lemma ParsedParts(fileName: string, d: string, code: string, n: int)
    requires var parts := SplitOn(SplitExtRoot(fileName), '_');
             |parts| >= 2 && parts[0] == d && parts[1] == code
    requires ParseInt(d) == Some(n)
    ensures ParseFileName(fileName) == Success((n, TypeOfCode(code)))
  {
  }

  /** The first two `_`-separated parts of `d_code...`. */
  lemma RootParts(d: string, code: string, tail: string)
    requires '_' !in d && '_' !in code && (tail == [] || tail[0] == '_')
    ensures var parts := SplitOn(d + "_" + code + tail, '_');
            |parts| >= 2 && parts[0] == d && parts[1] == code
  {
    var rest := code + tail;
    assert d + "_" + code + tail == d + "_" + rest;
    SplitOnFirst(d, rest, '_');
    SplitOnCode(code, tail);
  }

  /** The root of `root.ext` is `root`, when `root` has a character other
      than a dot and no slash, and `ext` has neither. */
  lemma RootOfName(root: string, ext: string)
    requires root != [] && !IsDot(root[0]) && '/' !in root
    requires '.' !in ext && '/' !in ext
    ensures SplitExtRoot(root + "." + ext) == root
  {
    var p := root + "." + ext;
    var dot := |root|;
    assert p[dot] == '.';
    assert forall k :: dot < k < |p| ==> p[k] == ext[k - dot - 1];
    LastIs(p, '.', dot);
    assert forall k :: 0 <= k < |p| ==> p[k] != '/' by {
      forall k | 0 <= k < |p|
        ensures p[k] != '/'
      {
        if k < dot {
          assert p[k] == root[k];
        } else if k > dot {
          assert p[k] == ext[k - dot - 1];
        }
      }
    }
    assert LastIndexOf(p, '/') == None;
    assert p[0..dot][0] == root[0];
    assert p[..dot] == root;
  }

  /** `LastIndexOf` finds an occurrence with none after it. */
  lemma {:induction false} LastIs(s: string, c: char, i: nat)
    requires i < |s| && s[i] == c && forall k :: i < k < |s| ==> s[k] != c
    ensures LastIndexOf(s, c) == Some(i)
  {
    if i < |s| - 1 {
      var init := s[..|s| - 1];
      assert forall k :: i < k < |init| ==> init[k] == s[k];
      LastIs(init, c, i);
    }
  }

  lemma DigitsHaveNoSeparator(d: string)
    requires AllDigits(d)
    ensures '_' !in d
  {
    forall k | 0 <= k < |d|
      ensures d[k] != '_'
    {
      assert IsDigit(d[k]);
    }
  }

  /** Splitting at the first separator: the part before it, then the split
      of the rest. */
  lemma SplitOnFirst(w: string, rest: string, sep: char)
    requires sep !in w
    ensures SplitOn(w + [sep] + rest, sep) == [w] + SplitOn(rest, sep)
  {
    var s := w + [sep] + rest;
    TakeWhileStops(s, w, c => c != sep);
    assert s[|w| + 1..] == rest;
  }

  /** The type code is the first part of `code + tail`. */
  lemma SplitOnCode(code: string, tail: string)
    requires '_' !in code && (tail == [] || tail[0] == '_')
    ensures SplitOn(code + tail, '_')[0] == code
  {
    var s := code + tail;
    TakeWhileStops(s, code, c => c != '_');
  }

  /** `int` reads back a decimal numeral. */
  lemma ParseDecimal(n: nat)
    ensures ParseInt(DecimalString(n)) == Some(n)
  {
    ParseDigits(DecimalString(n));
    DecimalRoundTrip(n);
  }

  /** `int` of a plain digit string is its decimal value. */
  lemma ParseDigits(d: string)
    requires d != [] && AllDigits(d)
    ensures ParseInt(d) == Some(DigitsValue(d) as int)
  {
    DigitsStripped(d);
    assert d[0] != '-' && d[0] != '+';
    assert Every(d, IsDigitOrUnderscore);
    assert IsDigitGroup(d);
    assert Every(d, IsDigit);
    FilterAll(IsDigit, d);
  }

  lemma DigitsStripped(d: string)
    requires d != [] && AllDigits(d)
    ensures Strip(d) == d
  {
    assert NotSpace(d[0]) && NotSpace(d[|d| - 1]);
    TrimLeftStops(d, IsSpace);
  }

  /** A filter that keeps every character changes nothing. */
  lemma {:induction false} FilterAll(keep: char -> bool, s: string)
    requires Every(s, keep)
    ensures Filter(keep, s) == s
  {
    if s != [] {
      FilterAll(keep, s[1..]);
      assert s == [s[0]] + s[1..];
    }
  }
}
