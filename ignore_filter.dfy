/** The ignore filter `check_ignored` of `src/thumbtack/utils.py`: an ordered,
    first-match-wins classification of a path found under the image directory.
    The file system and configuration it consults (`os.path.isdir`, the
    sibling listing `os.listdir` and the `PATH_CONTAINS` setting) are parameters. */
module IgnoreFilter {
  import opened Wrappers
  import opened Text

  /** What the filter learns about a path besides its text. */
  datatype Context = Context(isDir: bool, siblings: seq<string>, pathContains: Option<string>)

  /** The two letter classes of the segment patterns: `[EL]` and
      `[EFGHIJKLMNOPQRSTUWXYZ]` (both used with `re.I`, the second omits A-D and V). */
  datatype Letters = EOrL | SegmentLetters

  predicate InClass(c: char, k: Letters) {
    var l := LowerChar(c);
    match k
    case EOrL => l == 'e' || l == 'l'
    case SegmentLetters => 'e' <= l <= 'z' && l != 'v'
  }

  predicate IsX(c: char) {
    LowerChar(c) == 'x'
  }

  predicate IsS(c: char) {
    LowerChar(c) == 's'
  }

  /** The regular expressions `check_ignored` tries, each used as `re.match(".*" + P + "$", path)`. */
  datatype Pattern =
    | SegmentReport   // \.[EL]X?\w\w\.(txt|adcf|(packed_)?log)   with re.I
    | RawTail         // raw                                       with re.I
    | ImgTail         // img                                       with re.I
    | DbTail          // \.db                                      with re.I
    | LetterSegment   // \.[EFGHIJKLMNOPQRSTUWXYZ]X?\w\w           with re.I
    | DigitSegment    // \.[EFGHIJKLMNOPQRSTUWXYZ]X?\d\d+          with re.I
    | FirstSegment    // \.[EL]X?01                                with re.I
    | NumericSegment  // \.\d\d\d
    | FirstNumeric    // \.001
    | VmdkExtent      // \-s\w\w\w\.vmdk                           with re.I
    | VhdChild        // \-\d+\.vhd                                with re.I
    | VhdBase         // \-0\.vhd                                  with re.I

  /** The text a pattern of the form `.*P$` can match under `re.match`: `.` does not
      match a line feed and `$` also matches just before a final line feed. */
  function ReSubject(s: string): (r: Option<string>)
    ensures r.Some? ==> '\n' !in r.value
  {
    if '\n' !in s then Some(s)
    else if s[|s| - 1] == '\n' && '\n' !in s[..|s| - 1] then Some(s[..|s| - 1])
    else None
  }

  /** `u` ends with `.` followed by a class letter, optionally followed by `X`. */
  predicate DotClassTail(u: string, k: Letters) {
    || (|u| >= 2 && u[|u| - 2] == '.' && InClass(u[|u| - 1], k))
    || (|u| >= 3 && u[|u| - 3] == '.' && InClass(u[|u| - 2], k) && IsX(u[|u| - 1]))
  }

  /** `u` ends with a match of `\.[k]X?\w\w`. */
  predicate SegmentCode(u: string, k: Letters) {
    |u| >= 2 && IsWordChar(u[|u| - 2]) && IsWordChar(u[|u| - 1]) && DotClassTail(u[..|u| - 2], k)
  }

  /** The number of decimal digits at the end of `t`. */
  function TrailingDigits(t: string): (n: nat)
    ensures n <= |t|
    ensures forall i :: |t| - n <= i < |t| ==> IsDigit(t[i])
    ensures n < |t| ==> !IsDigit(t[|t| - n - 1])
  {
    if t != [] && IsDigit(t[|t| - 1]) then 1 + TrailingDigits(t[..|t| - 1]) else 0
  }

  /** `t` (free of line feeds) ends with a match of the pattern. */
  predicate TailMatches(t: string, p: Pattern) {
    match p
    case SegmentReport =>
      || (EndsWithCI(t, ".txt") && SegmentCode(t[..|t| - 4], EOrL))
      || (EndsWithCI(t, ".adcf") && SegmentCode(t[..|t| - 5], EOrL))
      || (EndsWithCI(t, ".log") && SegmentCode(t[..|t| - 4], EOrL))
      || (EndsWithCI(t, ".packed_log") && SegmentCode(t[..|t| - 11], EOrL))
    case RawTail => EndsWithCI(t, "raw")
    case ImgTail => EndsWithCI(t, "img")
    case DbTail => EndsWithCI(t, ".db")
    case LetterSegment => SegmentCode(t, SegmentLetters)
    case DigitSegment =>
      var d := TrailingDigits(t);
      d >= 2 && DotClassTail(t[..|t| - d], SegmentLetters)
    case FirstSegment => EndsWith(t, "01") && DotClassTail(t[..|t| - 2], EOrL)
    case NumericSegment =>
      |t| >= 4 && t[|t| - 4] == '.' && IsDigit(t[|t| - 3]) && IsDigit(t[|t| - 2]) && IsDigit(t[|t| - 1])
    case FirstNumeric => EndsWith(t, ".001")
    case VmdkExtent =>
      && EndsWithCI(t, ".vmdk")
      && var u := t[..|t| - 5];
      && |u| >= 5 && u[|u| - 5] == '-' && IsS(u[|u| - 4])
      && IsWordChar(u[|u| - 3]) && IsWordChar(u[|u| - 2]) && IsWordChar(u[|u| - 1])
    case VhdChild =>
      && EndsWithCI(t, ".vhd")
      && var u := t[..|t| - 4];
      && var d := TrailingDigits(u);
      && d >= 1 && d < |u| && u[|u| - d - 1] == '-'
    case VhdBase => EndsWithCI(t, "-0.vhd")
  }

  /** `re.match(".*" + P + "$", s)` succeeds. */
  predicate ReMatch(s: string, p: Pattern) {
    var t := ReSubject(s);
    t.Some? && TailMatches(t.value, p)
  }

  /** `[n.lower() for n in names]`: the same number of names, each of its old length
      and without capital letters. */
  function LowerAll(names: seq<string>): (r: seq<string>)
    ensures |r| == |names|
    ensures forall i :: 0 <= i < |r| ==> |r[i]| == |names[i]|
    ensures forall i, j :: 0 <= i < |r| && 0 <= j < |r[i]| ==> !('A' <= r[i][j] <= 'Z')
  {
    seq(|names|, i requires 0 <= i < |names| => LowerStr(names[i]))
  }

  /** The stem that the `.img` rule looks for among the siblings: the file name up to
      its first dot, lower-cased. */
  function ImgStem(path: string): string {
    LowerStr(FirstDotPart(FileName(path)))
  }

  /** Lower-casing a listing keeps the names that were already lower case, and the
      lower-cased form of every name is in it. */
  lemma LowerAllKeeps(names: seq<string>)
    ensures forall i :: 0 <= i < |names| && LowerStr(names[i]) == names[i] ==> LowerAll(names)[i] == names[i]
    ensures forall n :: n in names ==> LowerStr(n) in LowerAll(names)
  {
    forall n | n in names ensures LowerStr(n) in LowerAll(names) {
      var i :| 0 <= i < |names| && names[i] == n;
      assert LowerAll(names)[i] == LowerStr(n);
    }
  }

  /** Both `<stem>.e01` and `<stem>.imf` are in the (lower-cased) directory listing. */
  predicate HasEwfSiblings(path: string, siblings: seq<string>) {
    var names := LowerAll(siblings);
    ImgStem(path) + ".e01" in names && ImgStem(path) + ".imf" in names
  }

  /** The last rule: a configured `PATH_CONTAINS` the path does not contain. */
  predicate PathFilterRejects(path: string, pathContains: Option<string>) {
    pathContains.Some? && !Contains(path, pathContains.value)
  }

  /** The sidecar rule: text, log and packed-log files, in any letter case. */
  predicate IsSidecar(path: string) {
    EndsWithCI(path, ".txt") || EndsWithCI(path, ".log") || EndsWithCI(path, ".packed_log")
  }

  /** The rule for later segments of a split evidence file. */
  predicate SegmentRuleFires(path: string) {
    && !EndsWithCI(path, "log")
    && (ReMatch(path, LetterSegment) || ReMatch(path, DigitSegment))
    && !ReMatch(path, FirstSegment)
  }

  /** The rule for later segments of a split raw image. */
  predicate NumericRuleFires(path: string) {
    ReMatch(path, NumericSegment) && !ReMatch(path, FirstNumeric)
  }

  /** The rule for child disks of a split virtual hard disk. */
  predicate VhdRuleFires(path: string) {
    ReMatch(path, VhdChild) && !ReMatch(path, VhdBase)
  }

  /** `check_ignored(full_path)`: true when the path is to be left out of the catalog.
      Directories and sidecar files are always left out, and the path filter is the
      last word for every path but a raw image or an `.img` file. */
  function CheckIgnored(path: string, ctx: Context): (r: bool)
    ensures ctx.isDir || IsSidecar(path) || ReMatch(path, SegmentReport) ==> r
    ensures !r && PathFilterRejects(path, ctx.pathContains) ==> ReMatch(path, RawTail) || ReMatch(path, ImgTail)
  {
    if ctx.isDir then true
    else if ReMatch(path, SegmentReport) then true
    else if IsSidecar(path) then true
    else if ReMatch(path, RawTail) then false
    else if ReMatch(path, ImgTail) then HasEwfSiblings(path, ctx.siblings)
    else if ReMatch(path, DbTail) then true
    else if SegmentRuleFires(path) then true
    else if NumericRuleFires(path) then true
    else if ReMatch(path, VmdkExtent) then true
    else if VhdRuleFires(path) then true
    else PathFilterRejects(path, ctx.pathContains)
  }

  // ---------------------------------------------------------------------------
  // The digit patterns read as regular expressions

  /** The last `m` characters of `t` are digits. */
  predicate DigitRun(t: string, m: nat) {
    m <= |t| && forall i :: |t| - m <= i < |t| ==> IsDigit(t[i])
  }

  /** A run of digits at the end of `t` is never longer than the counted one, and
      the counted one is the only run that a class letter or `X` can precede. */
  lemma DigitRunIsTrailing(t: string, m: nat, k: Letters)
    requires DigitRun(t, m)
    ensures m <= TrailingDigits(t)
    ensures DotClassTail(t[..|t| - m], k) ==> m == TrailingDigits(t)
  {
    DigitRunBound(t, m);
    if m < TrailingDigits(t) {
      DigitBeforeRun(t, m, k);
    }
  }

  lemma {:induction false} DigitRunBound(t: string, m: nat)
    requires DigitRun(t, m)
    ensures m <= TrailingDigits(t)
  {
    if m > 0 {
      var init := t[..|t| - 1];
      assert DigitRun(init, m - 1) by {
        forall i | |init| - (m - 1) <= i < |init| ensures IsDigit(init[i]) {
          assert init[i] == t[i];
        }
      }
      DigitRunBound(init, m - 1);
    }
  }

  /** Inside the counted run, a digit precedes: neither a class letter nor `X`. */
  lemma DigitBeforeRun(t: string, m: nat, k: Letters)
    requires m < TrailingDigits(t)
    ensures !DotClassTail(t[..|t| - m], k)
  {
    var c := t[|t| - m - 1];
    assert IsDigit(c) && LowerChar(c) == c;
    assert !InClass(c, k) && !IsX(c);
    var u := t[..|t| - m];
    assert u[|u| - 1] == c;
  }

  /** `DigitSegment` is the regular expression `.*\.[EFGHIJKLMNOPQRSTUWXYZ]X?\d\d+$`:
      some run of at least two digits at the end, preceded by a dot and a class letter
      (and an optional `X`). */
  lemma DigitSegmentAsRegex(t: string)
    ensures TailMatches(t, DigitSegment) <==>
      exists m: nat :: 2 <= m && DigitRun(t, m) && DotClassTail(t[..|t| - m], SegmentLetters)
  {
    var d := TrailingDigits(t);
    if TailMatches(t, DigitSegment) {
      assert DigitRun(t, d);
    }
    if m: nat :| 2 <= m && DigitRun(t, m) && DotClassTail(t[..|t| - m], SegmentLetters) {
      DigitRunIsTrailing(t, m, SegmentLetters);
    }
  }

  // ---------------------------------------------------------------------------
  // Facts about suffixes

  lemma PlainSubject(s: string)
    requires '\n' !in s
    ensures ReSubject(s) == Some(s)
  {
  }

  /** A path ending in a dot and `x` ends in `.` + `e` exactly when `x` ends in `e`. */
  lemma DottedSuffix(stem: string, x: string, e: string)
    requires |x| == |e| && |stem| > 0 && stem[|stem| - 1] == '.'
    ensures EndsWithCI(stem + x, "." + e) <==> EndsWithCI(x, e)
  {
    var t := stem + x;
    var u := t[|t| - |e| - 1..];
    assert u == ['.'] + x;
    LowerConcat(['.'], x);
    assert x[|x| - |e|..] == x;
    SeqConsEq('.', LowerStr(x), e);
  }

  /** A sidecar report is always `.adcf`, `.packed_log` or a sidecar suffix. */
  lemma ReportHasSidecarSuffix(t: string)
    requires '\n' !in t && !EndsWithCI(t, ".adcf") && !EndsWithCI(t, ".packed_log")
    ensures ReMatch(t, SegmentReport) ==> IsSidecar(t)
  {
  }

  /** A name whose extension is a dot and three characters is a sidecar exactly when
      those characters are `txt` or `log`, in any case. */
  lemma DotExtSidecar(pre: string, x: string)
    requires |x| == 3 && |pre| > 0 && pre[|pre| - 1] == '.'
    ensures IsSidecar(pre + x) <==> EndsWithCI(x, "txt") || EndsWithCI(x, "log")
  {
    NotEndsWithCIAt(pre + x, ".packed_log", 7);
    DottedExtension(pre, x, "txt", ".txt");
    DottedExtension(pre, x, "log", ".log");
  }

  lemma DottedExtension(pre: string, x: string, e: string, de: string)
    requires |x| == |e| && |pre| > 0 && pre[|pre| - 1] == '.' && de == "." + e
    ensures EndsWithCI(pre + x, de) <==> EndsWithCI(x, e)
  {
    DottedSuffix(pre, x, e);
  }

  // ---------------------------------------------------------------------------
  // The rules in order

  /** Once no earlier rule applies, the segment rule ignores the path. */
  lemma SegmentRule(t: string, ctx: Context)
    requires '\n' !in t && !ctx.isDir
    requires !ReMatch(t, SegmentReport) && !IsSidecar(t)
    requires !EndsWithCI(t, "raw") && !EndsWithCI(t, "img") && !EndsWithCI(t, ".db")
    requires SegmentRuleFires(t)
    ensures CheckIgnored(t, ctx)
  {
    PlainSubject(t);
  }

  /** Once no earlier rule applies, the numeric-segment rule ignores the path. */
  lemma NumericRule(t: string, ctx: Context)
    requires '\n' !in t && !ctx.isDir
    requires !ReMatch(t, SegmentReport) && !IsSidecar(t)
    requires !EndsWithCI(t, "raw") && !EndsWithCI(t, "img") && !EndsWithCI(t, ".db")
    requires !SegmentRuleFires(t) && NumericRuleFires(t)
    ensures CheckIgnored(t, ctx)
  {
    PlainSubject(t);
  }

  /** Once no earlier rule applies, the extent rule ignores the path. */
  lemma VmdkRule(t: string, ctx: Context)
    requires '\n' !in t && !ctx.isDir
    requires !ReMatch(t, SegmentReport) && !IsSidecar(t)
    requires !EndsWithCI(t, "raw") && !EndsWithCI(t, "img") && !EndsWithCI(t, ".db")
    requires !SegmentRuleFires(t) && !NumericRuleFires(t) && ReMatch(t, VmdkExtent)
    ensures CheckIgnored(t, ctx)
  {
    PlainSubject(t);
  }

  /** Once no earlier rule applies, the child-disk rule ignores the path. */
  lemma VhdRule(t: string, ctx: Context)
    requires '\n' !in t && !ctx.isDir
    requires !ReMatch(t, SegmentReport) && !IsSidecar(t)
    requires !EndsWithCI(t, "raw") && !EndsWithCI(t, "img") && !EndsWithCI(t, ".db")
    requires !SegmentRuleFires(t) && !NumericRuleFires(t) && !ReMatch(t, VmdkExtent)
    requires VhdRuleFires(t)
    ensures CheckIgnored(t, ctx)
  {
    PlainSubject(t);
  }

  /** A path no classifying rule catches is ignored exactly when the path filter rejects it. */
  lemma FallThrough(t: string, ctx: Context)
    requires '\n' !in t && !ctx.isDir
    requires !ReMatch(t, SegmentReport) && !IsSidecar(t)
    requires !EndsWithCI(t, "raw") && !EndsWithCI(t, "img") && !EndsWithCI(t, ".db")
    requires !SegmentRuleFires(t) && !NumericRuleFires(t) && !ReMatch(t, VmdkExtent)
    requires !VhdRuleFires(t)
    ensures CheckIgnored(t, ctx) == PathFilterRejects(t, ctx.pathContains)
  {
    PlainSubject(t);
  }

  // ---------------------------------------------------------------------------
  // Properties of the filter

  /** Directories are always ignored, whatever their name. */
  lemma DirectoriesIgnored(path: string, ctx: Context)
    requires ctx.isDir
    ensures CheckIgnored(path, ctx)
  {
  }

  /** Text, log and packed-log files are ignored in any letter case, whatever the
      configured path filter. */
  lemma LogSidecarsIgnored(path: string, ctx: Context)
    requires EndsWithCI(path, ".txt") || EndsWithCI(path, ".log") || EndsWithCI(path, ".packed_log")
    ensures CheckIgnored(path, ctx)
  {
  }

  /** A per-segment `.adcf` report of an evidence file (`image.E01.adcf`) is ignored. */
  lemma SegmentReportIgnored(stem: string, c: char, w1: char, w2: char, ctx: Context)
    requires '\n' !in stem
    requires InClass(c, EOrL) && IsWordChar(w1) && IsWordChar(w2)
    ensures CheckIgnored(stem + ['.', c, w1, w2] + ".adcf", ctx)
  {
    SegmentReportMatches(stem, c, w1, w2);
  }

  lemma SegmentReportMatches(stem: string, c: char, w1: char, w2: char)
    requires '\n' !in stem
    requires InClass(c, EOrL) && IsWordChar(w1) && IsWordChar(w2)
    ensures ReMatch(stem + ['.', c, w1, w2] + ".adcf", SegmentReport)
  {
    var code := stem + ['.', c, w1, w2];
    var t := code + ".adcf";
    assert '\n' !in t;
    PlainSubject(t);
    assert EndsWithCI(t, ".adcf") by { EndsWithCIConcat(code, ".adcf", ".adcf"); }
    assert SegmentCode(code, EOrL) by { assert code[..|code| - 2] == stem + ['.', c]; }
    assert t[..|t| - 5] == code;
  }

  /** Any path ending in `raw` (any case) that is not a directory is kept, even when
      `PATH_CONTAINS` is set and the path does not contain it: the include rule comes
      before the path filter. */
  lemma RawIncluded(path: string, ctx: Context)
    requires '\n' !in path && !ctx.isDir
    requires EndsWithCI(path, "raw")
    ensures !CheckIgnored(path, ctx)
  {
    RawNotSidecar(path);
    assert ReSubject(path) == Some(path);
    assert ReMatch(path, RawTail);
  }

  /** A path ending in `raw` matches neither the report rule nor the sidecar rule. */
  lemma RawNotSidecar(path: string)
    requires '\n' !in path && EndsWithCI(path, "raw")
    ensures !ReMatch(path, SegmentReport) && !IsSidecar(path)
  {
    assert LowerChar(path[|path| - 1]) == 'w' by { EndsWithCIAt(path, "raw", 2); }
    assert !EndsWithCI(path, ".txt") by { NotEndsWithCIAt(path, ".txt", 3); }
    assert !EndsWithCI(path, ".log") by { NotEndsWithCIAt(path, ".log", 3); }
    assert !EndsWithCI(path, ".adcf") by { NotEndsWithCIAt(path, ".adcf", 4); }
    assert !EndsWithCI(path, ".packed_log") by { NotEndsWithCIAt(path, ".packed_log", 10); }
  }

  /** A path ending in `img` is neither a sidecar nor a raw image. */
  lemma ImgNotEarlier(path: string)
    requires '\n' !in path && EndsWithCI(path, "img")
    ensures !IsSidecar(path) && !ReMatch(path, SegmentReport) && !ReMatch(path, RawTail)
  {
    ImgSuffixes(path);
    PlainSubject(path);
  }

  lemma ImgSuffixes(path: string)
    requires EndsWithCI(path, "img")
    ensures !EndsWithCI(path, ".txt") && !EndsWithCI(path, ".log") && !EndsWithCI(path, ".adcf")
    ensures !EndsWithCI(path, ".packed_log") && !EndsWithCI(path, "raw")
  {
    assert LowerChar(path[|path| - 1]) == 'g' by { EndsWithCIAt(path, "img", 2); }
    assert !EndsWithCI(path, ".txt") by { NotEndsWithCIAt(path, ".txt", 3); }
    assert !EndsWithCI(path, ".adcf") by { NotEndsWithCIAt(path, ".adcf", 4); }
    assert !EndsWithCI(path, "raw") by { NotEndsWithCIAt(path, "raw", 2); }
    ImgNotLog(path);
  }

  lemma ImgNotLog(path: string)
    requires EndsWithCI(path, "img")
    ensures !EndsWithCI(path, ".log") && !EndsWithCI(path, ".packed_log")
  {
    assert LowerChar(path[|path| - 3]) == 'i' by { EndsWithCIAt(path, "img", 0); }
    assert !EndsWithCI(path, ".log") by { NotEndsWithCIAt(path, ".log", 1); }
    assert !EndsWithCI(path, ".packed_log") by { NotEndsWithCIAt(path, ".packed_log", 8); }
  }


  /** A non-directory path ending in `img` is ignored exactly when both
      `<stem>.e01` and `<stem>.imf` are among its siblings (compared in lower case),
      `<stem>` being the lower-cased file name up to its first dot. */
  lemma ImgIgnoredIffEwfSiblings(path: string, ctx: Context)
    requires '\n' !in path && !ctx.isDir
    requires EndsWithCI(path, "img")
    ensures CheckIgnored(path, ctx) <==> HasEwfSiblings(path, ctx.siblings)
  {
    ImgNotEarlier(path);
    PlainSubject(path);
  }

  /** `stem.X` + two word characters matches the letter-segment pattern when `X` is in its class. */
  lemma LetterSegmentMatches(stem: string, c: char, w1: char, w2: char)
    requires '\n' !in stem
    requires InClass(c, SegmentLetters) && IsWordChar(w1) && IsWordChar(w2)
    ensures ReMatch(stem + ['.', c, w1, w2], LetterSegment)
  {
    var t := stem + ['.', c, w1, w2];
    PlainSubject(t);
    assert t[..|t| - 2] == stem + ['.', c];
  }

  /** Only `01` after `.E`/`.L` (or `.EX`/`.LX`) is a first segment. */
  lemma FirstSegmentExactly(stem: string, c: char, w1: char, w2: char)
    requires '\n' !in stem && c != '\n' && w1 != '\n' && w2 != '\n'
    ensures ReMatch(stem + ['.', c, w1, w2], FirstSegment) <==> InClass(c, EOrL) && w1 == '0' && w2 == '1'
  {
    var t := stem + ['.', c, w1, w2];
    PlainSubject(t);
    assert EndsWith(t, "01") <==> w1 == '0' && w2 == '1' by {
      EndsWithConcat(stem, ['.', c, w1, w2], "01");
      assert ['.', c, w1, w2][2..] == [w1, w2];
    }
    assert DotClassTail(t[..|t| - 2], EOrL) <==> InClass(c, EOrL) by {
      var u := t[..|t| - 2];
      assert u == stem + ['.', c];
      assert u[|u| - 1] == c && u[|u| - 2] == '.';
      assert !IsX(c) || !InClass('.', EOrL);
    }
  }

  /** Later segments of a split evidence file are ignored: a final extension made of a
      dot, a letter of `[EFGHIJKLMNOPQRSTUWXYZ]` and two word characters (`.E02`, `.EAA`,
      `.FAB`, and also `.iso`), unless it is the first segment `.E01`/`.L01` or one of
      the extensions handled by earlier rules (`txt`, `log`, `raw`, `img`). */
  lemma LetterSegmentIgnored(stem: string, c: char, w1: char, w2: char, ctx: Context)
    requires '\n' !in stem && !ctx.isDir
    requires InClass(c, SegmentLetters) && IsWordChar(w1) && IsWordChar(w2)
    requires !EndsWithCI([c, w1, w2], "txt") && !EndsWithCI([c, w1, w2], "log")
    requires !EndsWithCI([c, w1, w2], "raw") && !EndsWithCI([c, w1, w2], "img")
    requires !(InClass(c, EOrL) && w1 == '0' && w2 == '1')
    ensures CheckIgnored(stem + ['.', c, w1, w2], ctx)
  {
    var t := stem + ['.', c, w1, w2];
    assert '\n' !in t by {
      assert c != '\n' && w1 != '\n' && w2 != '\n';
    }
    assert !ReMatch(t, SegmentReport) && !IsSidecar(t) && !EndsWithCI(t, "log")
      && !EndsWithCI(t, "raw") && !EndsWithCI(t, "img") && !EndsWithCI(t, ".db") by {
      assert t == (stem + ['.']) + [c, w1, w2];
      DotExtFacts(stem + ['.'], [c, w1, w2]);
      ReportHasSidecarSuffix(t);
    }
    assert SegmentRuleFires(t) by {
      LetterSegmentMatches(stem, c, w1, w2);
      FirstSegmentExactly(stem, c, w1, w2);
    }
    SegmentRule(t, ctx);
  }

  /** What the early rules see of a name ending in a dot and three characters. */
  lemma DotExtFacts(pre: string, x: string)
    requires |x| == 3 && |pre| > 0 && pre[|pre| - 1] == '.' && x[0] != '.'
    ensures IsSidecar(pre + x) <==> EndsWithCI(x, "txt") || EndsWithCI(x, "log")
    ensures !EndsWithCI(pre + x, ".adcf") && !EndsWithCI(pre + x, ".packed_log")
    ensures EndsWithCI(pre + x, "raw") <==> EndsWithCI(x, "raw")
    ensures EndsWithCI(pre + x, "img") <==> EndsWithCI(x, "img")
    ensures EndsWithCI(pre + x, "log") <==> EndsWithCI(x, "log")
    ensures !EndsWithCI(pre + x, ".db")
  {
    DotExtSidecar(pre, x);
    DotExtNotLonger(pre, x);
    SameLengthSuffix(pre, x, "raw");
    SameLengthSuffix(pre, x, "img");
    SameLengthSuffix(pre, x, "log");
    DotExtNotDb(pre, x);
  }

  /** A suffix as long as the extension is the extension itself. */
  lemma SameLengthSuffix(pre: string, x: string, e: string)
    requires |x| == |e|
    ensures EndsWithCI(pre + x, e) <==> EndsWithCI(x, e)
  {
    EndsWithCIConcat(pre, x, e);
    assert x[|x| - |e|..] == x;
  }

  lemma DotExtNotLonger(pre: string, x: string)
    requires |x| == 3 && |pre| > 0 && pre[|pre| - 1] == '.'
    ensures !EndsWithCI(pre + x, ".adcf") && !EndsWithCI(pre + x, ".packed_log")
  {
    NotEndsWithCIAt(pre + x, ".adcf", 1);
    NotEndsWithCIAt(pre + x, ".packed_log", 7);
  }

  lemma DotExtNotDb(pre: string, x: string)
    requires |x| == 3 && x[0] != '.'
    ensures !EndsWithCI(pre + x, ".db")
  {
    NotEndsWithCIAt(pre + x, ".db", 0);
  }

  /** A name whose last character is not the last of any early suffix (`t`, `g`, `f`,
      `w`, `b`) passes the sidecar, raw, img and db rules. */
  lemma EarlyRulesMiss(t: string)
    requires '\n' !in t && |t| > 0
    requires var l := LowerChar(t[|t| - 1]); l != 't' && l != 'g' && l != 'f' && l != 'w' && l != 'b'
    ensures !IsSidecar(t) && !ReMatch(t, SegmentReport)
    ensures !EndsWithCI(t, "raw") && !EndsWithCI(t, "img") && !EndsWithCI(t, ".db") && !EndsWithCI(t, "log")
  {
    assert !IsSidecar(t) && !EndsWithCI(t, ".adcf") by {
      assert !EndsWithCI(t, ".txt") by { NotEndsWithCIAt(t, ".txt", 3); }
      assert !EndsWithCI(t, ".log") by { NotEndsWithCIAt(t, ".log", 3); }
      assert !EndsWithCI(t, ".adcf") by { NotEndsWithCIAt(t, ".adcf", 4); }
      assert !EndsWithCI(t, ".packed_log") by { NotEndsWithCIAt(t, ".packed_log", 10); }
    }
    assert !EndsWithCI(t, "raw") by { NotEndsWithCIAt(t, "raw", 2); }
    assert !EndsWithCI(t, "img") by { NotEndsWithCIAt(t, "img", 2); }
    assert !EndsWithCI(t, ".db") by { NotEndsWithCIAt(t, ".db", 2); }
    assert !EndsWithCI(t, "log") by { NotEndsWithCIAt(t, "log", 2); }
    ReportHasSidecarSuffix(t);
  }

  /** A name ending in neither `k` nor `d` is no extent and no child disk. */
  lemma LateRulesMiss(t: string)
    requires '\n' !in t && |t| > 0
    requires LowerChar(t[|t| - 1]) != 'k' && LowerChar(t[|t| - 1]) != 'd'
    ensures !ReMatch(t, VmdkExtent) && !VhdRuleFires(t)
  {
    NotEndsWithCIAt(t, ".vmdk", 4);
    NotEndsWithCIAt(t, ".vhd", 3);
    PlainSubject(t);
  }

  /** The first segment of an evidence file, `.E01` or `.L01` in any case (also
      `.EX01`-style names are first segments), is kept unless the path filter rejects it. */
  lemma FirstSegmentKept(stem: string, c: char, ctx: Context)
    requires '\n' !in stem && !ctx.isDir
    requires InClass(c, EOrL)
    ensures CheckIgnored(stem + ['.', c, '0', '1'], ctx) == PathFilterRejects(stem + ['.', c, '0', '1'], ctx.pathContains)
  {
    var t := stem + ['.', c, '0', '1'];
    EarlyRulesMiss(t);
    FirstSegmentNoRule(stem, c);
    LateRulesMiss(t);
    FallThrough(t, ctx);
  }

  lemma FirstSegmentNoRule(stem: string, c: char)
    requires '\n' !in stem && InClass(c, EOrL)
    ensures !SegmentRuleFires(stem + ['.', c, '0', '1']) && !NumericRuleFires(stem + ['.', c, '0', '1'])
  {
    var t := stem + ['.', c, '0', '1'];
    FirstSegmentExactly(stem, c, '0', '1');
    PlainSubject(t);
    assert !IsDigit(t[|t| - 3]);
  }

  /** The digits at the end of `pre + x` are exactly `x` when `x` is all digits and
      `pre` does not end in one. */
  lemma TrailingDigitsAfter(pre: string, x: string)
    requires forall i :: 0 <= i < |x| ==> IsDigit(x[i])
    requires pre != [] && !IsDigit(pre[|pre| - 1])
    ensures TrailingDigits(pre + x) == |x|
  {
    var t := pre + x;
    assert t[|t| - |x| - 1] == pre[|pre| - 1];
    assert forall i :: |pre| <= i < |t| ==> t[i] == x[i - |pre|];
  }

  /** A dot and three digits: the numeric rule applies, the segment rule does not, and
      only `.001` counts as a first segment. */
  lemma NumericExtFacts(pre: string, x: string)
    requires '\n' !in pre + x
    requires |x| == 3 && IsDigit(x[0]) && IsDigit(x[1]) && IsDigit(x[2])
    requires |pre| > 0 && pre[|pre| - 1] == '.'
    ensures !ReMatch(pre + x, LetterSegment) && !ReMatch(pre + x, DigitSegment)
    ensures ReMatch(pre + x, NumericSegment)
    ensures ReMatch(pre + x, FirstNumeric) <==> x == "001"
  {
    var t := pre + x;
    PlainSubject(t);
    var u := t[..|t| - 2];
    assert u[|u| - 1] == x[0] && u[|u| - 2] == '.';
    TrailingDigitsAfter(pre, x);
    assert t[..|t| - 3] == pre;
    assert t[|t| - 4..] == ['.'] + x;
    SeqConsEq('.', x, "001");
  }

  /** Later segments of a split raw image (`.002`, `.123`) are ignored. */
  lemma NumericLaterIgnored(stem: string, d1: char, d2: char, d3: char, ctx: Context)
    requires '\n' !in stem && !ctx.isDir
    requires IsDigit(d1) && IsDigit(d2) && IsDigit(d3) && [d1, d2, d3] != "001"
    ensures CheckIgnored(stem + ['.', d1, d2, d3], ctx)
  {
    var t := stem + ['.', d1, d2, d3];
    assert t == (stem + ['.']) + [d1, d2, d3];
    EarlyRulesMiss(t);
    NumericExtFacts(stem + ['.'], [d1, d2, d3]);
    NumericRule(t, ctx);
  }

  /** The first segment `.001` of a split raw image is kept unless the path filter
      rejects it. */
  lemma NumericFirstKept(stem: string, ctx: Context)
    requires '\n' !in stem && !ctx.isDir
    ensures CheckIgnored(stem + ".001", ctx) == PathFilterRejects(stem + ".001", ctx.pathContains)
  {
    var t := stem + ".001";
    assert t == (stem + ['.']) + "001";
    EarlyRulesMiss(t);
    NumericExtFacts(stem + ['.'], "001");
    LateRulesMiss(t);
    FallThrough(t, ctx);
  }

  /** A name ending in `.vmdk` or `.vhd` is neither a sidecar, a raw or img file, a
      database nor a segment of a split file. */
  lemma VirtualDiskNotSegment(pre: string, e: string)
    requires '\n' !in pre + e
    requires e == ".vmdk" || e == ".vhd"
    ensures !IsSidecar(pre + e) && !ReMatch(pre + e, SegmentReport)
    ensures !EndsWithCI(pre + e, "raw") && !EndsWithCI(pre + e, "img") && !EndsWithCI(pre + e, ".db")
    ensures !SegmentRuleFires(pre + e) && !NumericRuleFires(pre + e)
  {
    VirtualDiskEarlyMiss(pre, e);
    VirtualDiskNoSegment(pre, e);
  }

  lemma VirtualDiskEarlyMiss(pre: string, e: string)
    requires '\n' !in pre + e
    requires e == ".vmdk" || e == ".vhd"
    ensures !IsSidecar(pre + e) && !ReMatch(pre + e, SegmentReport)
    ensures !EndsWithCI(pre + e, "raw") && !EndsWithCI(pre + e, "img") && !EndsWithCI(pre + e, ".db")
    ensures !EndsWithCI(pre + e, "log")
  {
    var t := pre + e;
    assert t[|t| - 1] == e[|e| - 1];
    EarlyRulesMiss(t);
  }

  lemma VirtualDiskNoSegment(pre: string, e: string)
    requires '\n' !in pre + e
    requires e == ".vmdk" || e == ".vhd"
    ensures !SegmentRuleFires(pre + e) && !NumericRuleFires(pre + e)
  {
    var t := pre + e;
    PlainSubject(t);
    var u := t[..|t| - 2];
    assert u[|u| - 1] == e[|e| - 3] && u[|u| - 2] == e[|e| - 4];
    assert !IsDigit(t[|t| - 1]);
  }

  /** An extent `-sNNN.vmdk` of a split VMware disk (`s`, then three word characters)
      is always ignored. */
  lemma VmdkExtentIgnored(stem: string, s: char, a: char, b: char, c: char, ctx: Context)
    requires '\n' !in stem && !ctx.isDir
    requires IsS(s) && IsWordChar(a) && IsWordChar(b) && IsWordChar(c)
    ensures CheckIgnored(stem + ['-', s, a, b, c] + ".vmdk", ctx)
  {
    var pre := stem + ['-', s, a, b, c];
    var t := pre + ".vmdk";
    VirtualDiskNotSegment(pre, ".vmdk");
    VmdkExtentMatches(stem, s, a, b, c);
    VmdkRule(t, ctx);
  }

  lemma VmdkExtentMatches(stem: string, s: char, a: char, b: char, c: char)
    requires '\n' !in stem
    requires IsS(s) && IsWordChar(a) && IsWordChar(b) && IsWordChar(c)
    ensures ReMatch(stem + ['-', s, a, b, c] + ".vmdk", VmdkExtent)
  {
    var pre := stem + ['-', s, a, b, c];
    var t := pre + ".vmdk";
    VmdkLowerCase();
    EndsWithCISelf(pre, ".vmdk");
    PlainSubject(t);
    assert t[..|t| - 5] == pre;
  }

  lemma VmdkLowerCase()
    ensures LowerStr(".vmdk") == ".vmdk"
  {
    LowerNoUpper(".vmdk");
  }

  /** A child disk `-N.vhd` of a differencing virtual hard disk is ignored unless
      it ends in `-0.vhd`. */
  lemma VhdChildIgnored(stem: string, ds: string, ctx: Context)
    requires '\n' !in stem && !ctx.isDir
    requires ds != [] && ds != "0" && forall i :: 0 <= i < |ds| ==> IsDigit(ds[i])
    ensures CheckIgnored(stem + ['-'] + ds + ".vhd", ctx)
  {
    var pre := stem + ['-'] + ds;
    var t := pre + ".vhd";
    assert '\n' !in ds;
    VirtualDiskNotSegment(pre, ".vhd");
    NotVmdk(t);
    VhdChildMatches(stem, ds);
    VhdRule(t, ctx);
  }

  lemma VhdChildMatches(stem: string, ds: string)
    requires '\n' !in stem
    requires ds != [] && ds != "0" && forall i :: 0 <= i < |ds| ==> IsDigit(ds[i])
    ensures VhdRuleFires(stem + ['-'] + ds + ".vhd")
  {
    VhdChildPlain(stem, ds);
    VhdChildTail(stem, ds);
    VhdChildNotBase(stem, ds);
  }

  lemma VhdChildPlain(stem: string, ds: string)
    requires '\n' !in stem && forall i :: 0 <= i < |ds| ==> IsDigit(ds[i])
    ensures ReSubject(stem + ['-'] + ds + ".vhd") == Some(stem + ['-'] + ds + ".vhd")
  {
    var t := stem + ['-'] + ds + ".vhd";
    assert forall i :: 0 <= i < |ds| ==> ds[i] != '\n';
    assert '\n' !in t;
    PlainSubject(t);
  }

  lemma VhdChildTail(stem: string, ds: string)
    requires ds != [] && forall i :: 0 <= i < |ds| ==> IsDigit(ds[i])
    ensures TailMatches(stem + ['-'] + ds + ".vhd", VhdChild)
  {
    var pre := stem + ['-'] + ds;
    var t := pre + ".vhd";
    LowerNoUpper(".vhd");
    EndsWithCISelf(pre, ".vhd");
    assert t[..|t| - 4] == pre;
    assert pre == (stem + ['-']) + ds;
    TrailingDigitsAfter(stem + ['-'], ds);
  }

  lemma VhdChildNotBase(stem: string, ds: string)
    requires ds != [] && ds != "0" && forall i :: 0 <= i < |ds| ==> IsDigit(ds[i])
    ensures !EndsWithCI(stem + ['-'] + ds + ".vhd", "-0.vhd")
  {
    var t := stem + ['-'] + ds + ".vhd";
    if |ds| >= 2 {
      assert t[|t| - 6] == ds[|ds| - 2];
      NotEndsWithCIAt(t, "-0.vhd", 0);
    } else {
      assert t[|t| - 5] == ds[0];
      NotEndsWithCIAt(t, "-0.vhd", 1);
    }
  }

  /** The base disk `-0.vhd` is kept unless the path filter rejects it. */
  lemma VhdBaseKept(stem: string, ctx: Context)
    requires '\n' !in stem && !ctx.isDir
    ensures CheckIgnored(stem + "-0.vhd", ctx) == PathFilterRejects(stem + "-0.vhd", ctx.pathContains)
  {
    var pre := stem + "-0";
    var t := stem + "-0.vhd";
    assert t == pre + ".vhd";
    VirtualDiskNotSegment(pre, ".vhd");
    NotVmdk(t);
    VhdBaseMatches(stem);
    FallThrough(t, ctx);
  }

  lemma VhdBaseMatches(stem: string)
    requires '\n' !in stem
    ensures !VhdRuleFires(stem + "-0.vhd")
  {
    var t := stem + "-0.vhd";
    PlainSubject(t);
    assert TailMatches(t, VhdBase) by {
      LowerNoUpper("-0.vhd");
      EndsWithCISelf(stem, "-0.vhd");
    }
  }

  lemma NotVmdk(t: string)
    requires '\n' !in t && |t| > 0 && LowerChar(t[|t| - 1]) != 'k'
    ensures !ReMatch(t, VmdkExtent)
  {
    NotEndsWithCIAt(t, ".vmdk", 4);
    PlainSubject(t);
  }

  // ---------------------------------------------------------------------------
  // The path filter

  /** Setting `PATH_CONTAINS` can only add ignored paths. */
  lemma PathFilterOnlyNarrows(path: string, ctx: Context)
    ensures CheckIgnored(path, ctx.(pathContains := None)) ==> CheckIgnored(path, ctx)
  {
  }

  /** A path that contains the configured `PATH_CONTAINS` is classified as if no filter
      were configured. */
  lemma PathFilterMatched(path: string, ctx: Context)
    requires ctx.pathContains.Some? && Contains(path, ctx.pathContains.value)
    ensures CheckIgnored(path, ctx) == CheckIgnored(path, ctx.(pathContains := None))
  {
  }

  /** A path the filter keeps that is neither a raw image nor an `img` file contains the
      configured `PATH_CONTAINS`. */
  lemma KeptPathContainsFilter(path: string, ctx: Context)
    requires ctx.pathContains.Some? && !CheckIgnored(path, ctx)
    requires !ReMatch(path, RawTail) && !ReMatch(path, ImgTail)
    ensures Contains(path, ctx.pathContains.value)
  {
  }

  /** A raw `dd` image is kept unless the path filter rejects it: the segment pattern's
      letter class leaves out `D`. */
  lemma DdKept(stem: string, ctx: Context)
    requires '\n' !in stem && !ctx.isDir
    ensures CheckIgnored(stem + ".dd", ctx) == PathFilterRejects(stem + ".dd", ctx.pathContains)
  {
    var t := stem + ".dd";
    DdFacts(stem);
    EarlyRulesMiss(t);
    FallThrough(t, ctx);
  }

  lemma DdFacts(stem: string)
    requires '\n' !in stem
    ensures !SegmentRuleFires(stem + ".dd") && !NumericRuleFires(stem + ".dd")
    ensures !ReMatch(stem + ".dd", VmdkExtent) && !VhdRuleFires(stem + ".dd")
  {
    DdNotSegment(stem);
    DdNotVirtualDisk(stem);
  }

  lemma DdNotSegment(stem: string)
    requires '\n' !in stem
    ensures !SegmentRuleFires(stem + ".dd") && !NumericRuleFires(stem + ".dd")
  {
    var t := stem + ".dd";
    PlainSubject(t);
    assert !TailMatches(t, LetterSegment) by {
      var u := t[..|t| - 2];
      assert u == stem + ['.'];
      assert u[|u| - 1] == '.';
    }
    assert !TailMatches(t, DigitSegment) by {
      assert t[|t| - 1] == 'd';
      assert TrailingDigits(t) == 0;
    }
    assert !TailMatches(t, NumericSegment) by {
      assert t[|t| - 1] == 'd';
    }
  }

  lemma DdNotVirtualDisk(stem: string)
    requires '\n' !in stem
    ensures !ReMatch(stem + ".dd", VmdkExtent) && !VhdRuleFires(stem + ".dd")
  {
    var t := stem + ".dd";
    PlainSubject(t);
    NotEndsWithCIAt(t, ".vmdk", 4);
    NotEndsWithCIAt(t, ".vhd", 2);
  }

  // ---------------------------------------------------------------------------
  // Examples

  /** `<stem>.E01` and `<stem>.L01` are kept; `<stem>.E02`, `.EAA`, `.FAB` and `.iso` are ignored. */
  lemma EvidenceSegmentExamples(stem: string, ctx: Context)
    requires '\n' !in stem && !ctx.isDir
    ensures CheckIgnored(stem + ".E01", ctx) == PathFilterRejects(stem + ".E01", ctx.pathContains)
    ensures CheckIgnored(stem + ".L01", ctx) == PathFilterRejects(stem + ".L01", ctx.pathContains)
    ensures CheckIgnored(stem + ".E02", ctx) && CheckIgnored(stem + ".EAA", ctx)
    ensures CheckIgnored(stem + ".FAB", ctx) && CheckIgnored(stem + ".iso", ctx)
  {
    assert stem + ".E01" == stem + ['.', 'E', '0', '1'];
    FirstSegmentKept(stem, 'E', ctx);
    assert stem + ".L01" == stem + ['.', 'L', '0', '1'];
    FirstSegmentKept(stem, 'L', ctx);
    assert stem + ".E02" == stem + ['.', 'E', '0', '2'];
    LetterSegmentCaught(stem, 'E', '0', '2', ctx);
    assert stem + ".EAA" == stem + ['.', 'E', 'A', 'A'];
    LetterSegmentCaught(stem, 'E', 'A', 'A', ctx);
    assert stem + ".FAB" == stem + ['.', 'F', 'A', 'B'];
    LetterSegmentCaught(stem, 'F', 'A', 'B', ctx);
    assert stem + ".iso" == stem + ['.', 'i', 's', 'o'];
    LetterSegmentCaught(stem, 'i', 's', 'o', ctx);
  }

  /** The letter-segment rule for an extension whose last character cannot end `txt`,
      `log`, `raw` or `img`. */
  lemma LetterSegmentCaught(stem: string, c: char, w1: char, w2: char, ctx: Context)
    requires '\n' !in stem && !ctx.isDir
    requires InClass(c, SegmentLetters) && IsWordChar(w1) && IsWordChar(w2)
    requires LowerChar(w2) != 't' && LowerChar(w2) != 'g' && LowerChar(w2) != 'w'
    requires !(InClass(c, EOrL) && w1 == '0' && w2 == '1')
    ensures CheckIgnored(stem + ['.', c, w1, w2], ctx)
  {
    NotEndsWithCIAt([c, w1, w2], "txt", 2);
    NotEndsWithCIAt([c, w1, w2], "log", 2);
    NotEndsWithCIAt([c, w1, w2], "raw", 2);
    NotEndsWithCIAt([c, w1, w2], "img", 2);
    LetterSegmentIgnored(stem, c, w1, w2, ctx);
  }

  /** `<stem>.001` and `<stem>.dd` are kept; `<stem>.002` is ignored. */
  lemma RawSegmentExamples(stem: string, ctx: Context)
    requires '\n' !in stem && !ctx.isDir
    ensures CheckIgnored(stem + ".001", ctx) == PathFilterRejects(stem + ".001", ctx.pathContains)
    ensures CheckIgnored(stem + ".dd", ctx) == PathFilterRejects(stem + ".dd", ctx.pathContains)
    ensures CheckIgnored(stem + ".002", ctx)
  {
    NumericFirstKept(stem, ctx);
    DdKept(stem, ctx);
    assert stem + ".002" == stem + ['.', '0', '0', '2'];
    NumericLaterIgnored(stem, '0', '0', '2', ctx);
  }

  /** `<stem>-s001.vmdk` and `<stem>-1.vhd` are ignored; `<stem>-0.vhd` is kept. */
  lemma VirtualDiskExamples(stem: string, ctx: Context)
    requires '\n' !in stem && !ctx.isDir
    ensures CheckIgnored(stem + "-s001.vmdk", ctx)
    ensures CheckIgnored(stem + "-1.vhd", ctx)
    ensures CheckIgnored(stem + "-0.vhd", ctx) == PathFilterRejects(stem + "-0.vhd", ctx.pathContains)
  {
    VmdkExample(stem, ctx);
    VhdChildExample(stem, ctx);
    VhdBaseKept(stem, ctx);
  }

  lemma VmdkExample(stem: string, ctx: Context)
    requires '\n' !in stem && !ctx.isDir
    ensures CheckIgnored(stem + "-s001.vmdk", ctx)
  {
    assert stem + "-s001.vmdk" == stem + ['-', 's', '0', '0', '1'] + ".vmdk";
    VmdkExtentIgnored(stem, 's', '0', '0', '1', ctx);
  }

  lemma VhdChildExample(stem: string, ctx: Context)
    requires '\n' !in stem && !ctx.isDir
    ensures CheckIgnored(stem + "-1.vhd", ctx)
  {
    assert stem + "-1.vhd" == stem + ['-'] + "1" + ".vhd";
    VhdChildIgnored(stem, "1", ctx);
  }
}
