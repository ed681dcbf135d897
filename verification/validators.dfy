/** The input validators of the application (`app/utils.py`).

    Each regular expression is written as a hand-coded recogniser over
    `seq<char>` together with a ghost predicate that follows the pattern
    part by part, and a lemma proves the two agree on every string.
    Python's `re.match(p + '$', s)` accepts a match that ends either at the
    end of `s` or just before one final newline; that is modelled exactly.
    `\s` is Python's Unicode whitespace for `str` patterns (the characters
    `str.isspace` accepts), and `str.isdigit` is restricted to the ASCII
    digits. */
module Validators {
  import opened Common

  // ---------------------------------------------------------------------
  // Character classes

  predicate IsAsciiLetter(c: char) { 'a' <= c <= 'z' || 'A' <= c <= 'Z' }
  predicate IsDigit(c: char) { '0' <= c <= '9' }
  /** `[a-zA-Z0-9_]` */
  predicate IsWordChar(c: char) { IsAsciiLetter(c) || IsDigit(c) || c == '_' }
  /** `[a-zA-Z0-9_.+-]`, the local part of an address */
  predicate IsLocalChar(c: char) { IsWordChar(c) || c == '.' || c == '+' || c == '-' }
  /** `[a-zA-Z0-9-]`, one domain label */
  predicate IsLabelChar(c: char) { IsAsciiLetter(c) || IsDigit(c) || c == '-' }
  predicate IsLabelOrDot(c: char) { IsLabelChar(c) || c == '.' }
  /** The characters Python's `\s` matches in a `str` pattern (those for
      which `str.isspace` holds): space, \t \n \v \f \r, \x1c-\x1f, and the
      non-ASCII spaces and separators U+0085, U+00A0, U+1680,
      U+2000-U+200A, U+2028, U+2029, U+202F, U+205F and U+3000 */
  predicate IsSpace(c: char) {
    c == ' ' || ('\t' <= c <= '\r') || ('\U{1C}' <= c <= '\U{1F}') ||
    c == '\U{85}' || c == '\U{A0}' || c == '\U{1680}' || ('\U{2000}' <= c <= '\U{200A}') ||
    c == '\U{2028}' || c == '\U{2029}' || c == '\U{202F}' || c == '\U{205F}' || c == '\U{3000}'
  }
  /** The nine characters `\ / : * ? " < > |` that a filename may not contain */
  predicate IsForbiddenFilenameChar(c: char) {
    c == '\\' || c == '/' || c == ':' || c == '*' || c == '?' || c == '"' || c == '<' || c == '>' || c == '|'
  }

  // ---------------------------------------------------------------------
  // Scanning helpers

  /** A left-to-right scan: every character satisfies `p`. */
  function AllChars(s: string, p: char -> bool): (ok: bool)
    ensures ok <==> forall i :: 0 <= i < |s| ==> p(s[i])
  {
    |s| == 0 || (p(s[0]) && AllChars(s[1..], p))
  }

  /** A scan for two adjacent dots. */
  function ContainsDoubleDot(s: string): (found: bool)
    ensures found <==> exists k :: 0 <= k < |s| - 1 && s[k] == '.' && s[k + 1] == '.'
  {
    if |s| < 2 then false
    else if s[0] == '.' && s[1] == '.' then true
    else
      var rest := ContainsDoubleDot(s[1..]);
      assert forall k :: 1 <= k < |s| - 1 ==> s[k] == s[1..][k - 1] && s[k + 1] == s[1..][k];
      rest
  }

  function FirstIndexOf(s: string, c: char): (r: Option<nat>)
    ensures r.None? <==> forall i :: 0 <= i < |s| ==> s[i] != c
    ensures r.Some? ==> r.value < |s| && s[r.value] == c && forall i :: 0 <= i < r.value ==> s[i] != c
  {
    IndexWhere(s, x => x == c)
  }

  function LastIndexOf(s: string, c: char): (r: Option<nat>)
    ensures r.None? <==> forall i :: 0 <= i < |s| ==> s[i] != c
    ensures r.Some? ==> r.value < |s| && s[r.value] == c && forall i :: r.value < i < |s| ==> s[i] != c
  {
    if |s| == 0 then None
    else if s[|s| - 1] == c then Some(|s| - 1)
    else LastIndexOf(s[..|s| - 1], c)
  }

  /** The first occurrence is the one with none before it. */
  lemma FirstIndexIs(s: string, c: char, i: nat)
    requires i < |s| && s[i] == c && forall k :: 0 <= k < i ==> s[k] != c
    ensures FirstIndexOf(s, c) == Some(i)
  {
  }

  /** The last occurrence is the one with none after it. */
  lemma LastIndexIs(s: string, c: char, i: nat)
    requires i < |s| && s[i] == c && forall k :: i < k < |s| ==> s[k] != c
    ensures LastIndexOf(s, c) == Some(i)
  {
  }

  /** The string without its last character, the candidate for a match that
      stops before a final newline. */
  function DropLast(s: string): (t: string)
    ensures |s| > 0 ==> t == s[..|s| - 1]
  {
    if |s| == 0 then s else s[..|s| - 1]
  }

  // ---------------------------------------------------------------------
  // is_valid_email:
  //   ^(?!.*\.\.)[a-zA-Z0-9_.+-]+@(?!-)[a-zA-Z0-9-]+(\.[a-zA-Z0-9-]+)*\.[a-zA-Z]{2,}$

  /** The regex part `[a-zA-Z0-9-]+(\.[a-zA-Z0-9-]+)*`, read as the pattern reads. */
  ghost predicate DottedLabels(d: string)
    decreases |d|
  {
    exists k :: 0 < k <= |d| && AllChars(d[..k], IsLabelChar) &&
      (k == |d| || (d[k] == '.' && DottedLabels(d[k + 1..])))
  }

  /** Recogniser for the same part: label characters and dots, no dot at
      either end, no two dots in a row. */
  function IsLabelList(x: string): bool {
    |x| > 0 && x[0] != '.' && x[|x| - 1] != '.' && !ContainsDoubleDot(x) && AllChars(x, IsLabelOrDot)
  }

  lemma {:induction false} LabelListSound(x: string)
    requires IsLabelList(x)
    ensures DottedLabels(x)
    decreases |x|
  {
    match FirstIndexOf(x, '.')
    case None =>
      assert x[..|x|] == x;
      assert AllChars(x[..|x|], IsLabelChar);
    case Some(f) =>
      var rest := x[f + 1..];
      assert f > 0;
      assert AllChars(x[..f], IsLabelChar);
      assert f + 1 < |x|;
      assert rest[0] != '.' by { assert x[f + 1] != '.'; }
      assert rest[|rest| - 1] == x[|x| - 1];
      assert !ContainsDoubleDot(rest) by {
        forall k | 0 <= k < |rest| - 1
          ensures !(rest[k] == '.' && rest[k + 1] == '.')
        {
          assert rest[k] == x[f + 1 + k] && rest[k + 1] == x[f + 2 + k];
        }
      }
      assert AllChars(rest, IsLabelOrDot);
      LabelListSound(rest);
      assert 0 < f <= |x| && AllChars(x[..f], IsLabelChar) && x[f] == '.' && DottedLabels(x[f + 1..]);
  }

  lemma {:induction false} LabelListComplete(x: string)
    requires DottedLabels(x)
    ensures IsLabelList(x)
    decreases |x|
  {
    var k :| 0 < k <= |x| && AllChars(x[..k], IsLabelChar) &&
      (k == |x| || (x[k] == '.' && DottedLabels(x[k + 1..])));
    if k == |x| {
      assert x[..k] == x;
      assert forall i :: 0 <= i < |x| ==> x[i] != '.';
    } else {
      var rest := x[k + 1..];
      LabelListComplete(rest);
      assert forall i :: 0 <= i < k ==> x[i] == x[..k][i] && IsLabelChar(x[i]);
      assert forall i :: k < i < |x| ==> x[i] == rest[i - k - 1];
      assert x[|x| - 1] == rest[|rest| - 1];
      assert !ContainsDoubleDot(x) by {
        forall j | 0 <= j < |x| - 1
          ensures !(x[j] == '.' && x[j + 1] == '.')
        {
          if j > k {
            assert x[j] == rest[j - k - 1] && x[j + 1] == rest[j - k];
          } else if j == k {
            assert x[j + 1] == rest[0];
          }
        }
      }
    }
  }

  /** The email pattern after the look-ahead, as the regex reads it. */
  ghost predicate EmailShape(s: string) {
    exists i, j :: 0 < i < j < |s| && s[i] == '@' && s[j] == '.' &&
      AllChars(s[..i], IsLocalChar) &&
      s[i + 1] != '-' && DottedLabels(s[i + 1..j]) &&
      |s| - (j + 1) >= 2 && AllChars(s[j + 1..], IsAsciiLetter)
  }

  /** The whole pattern anchored at both ends, without the `$` newline allowance. */
  ghost predicate EmailPattern(s: string) {
    !ContainsDoubleDot(s) && EmailShape(s)
  }

  /** Recogniser for the domain: the last dot splits labels from the TLD. */
  function IsEmailDomain(d: string): bool {
    match LastIndexOf(d, '.')
    case None => false
    case Some(j) =>
      j > 0 && d[0] != '-' && IsLabelList(d[..j]) &&
      |d| - (j + 1) >= 2 && AllChars(d[j + 1..], IsAsciiLetter)
  }

  /** Recogniser for the pattern: the first `@` splits local part from domain. */
  function IsEmailCore(s: string): bool {
    !ContainsDoubleDot(s) &&
    match FirstIndexOf(s, '@')
    case None => false
    case Some(i) => i > 0 && AllChars(s[..i], IsLocalChar) && IsEmailDomain(s[i + 1..])
  }

  /** `is_valid_email`: the pattern, with `$` allowing one final newline. */
  function IsValidEmail(s: string): (ok: bool)
    ensures ok <==> EmailPattern(s) || (|s| > 0 && s[|s| - 1] == '\n' && EmailPattern(s[..|s| - 1]))
  {
    EmailCoreMatchesPattern(s);
    EmailCoreMatchesPattern(DropLast(s));
    IsEmailCore(s) || (|s| > 0 && s[|s| - 1] == '\n' && IsEmailCore(s[..|s| - 1]))
  }

  /** The recogniser accepts exactly the strings the pattern describes. */
  lemma EmailCoreMatchesPattern(s: string)
    ensures IsEmailCore(s) <==> EmailPattern(s)
  {
    if IsEmailCore(s) { EmailCoreSound(s); }
    if EmailPattern(s) {
      var i, j :| 0 < i < j < |s| && s[i] == '@' && s[j] == '.' &&
        AllChars(s[..i], IsLocalChar) &&
        s[i + 1] != '-' && DottedLabels(s[i + 1..j]) &&
        |s| - (j + 1) >= 2 && AllChars(s[j + 1..], IsAsciiLetter);
      EmailCoreComplete(s, i, j);
    }
  }

  lemma EmailCoreSound(s: string)
    requires IsEmailCore(s)
    ensures EmailPattern(s)
  {
    var i := FirstIndexOf(s, '@').value;
    var d := s[i + 1..];
    var dj := LastIndexOf(d, '.').value;
    var j := i + 1 + dj;
    assert s[i + 1..j] == d[..dj];
    assert s[j + 1..] == d[dj + 1..];
    LabelListSound(d[..dj]);
    assert s[i + 1] == d[0];
    assert s[j] == d[dj];
    assert 0 < i < j < |s| && s[i] == '@' && s[j] == '.' &&
      AllChars(s[..i], IsLocalChar) &&
      s[i + 1] != '-' && DottedLabels(s[i + 1..j]) &&
      |s| - (j + 1) >= 2 && AllChars(s[j + 1..], IsAsciiLetter);
  }

  lemma EmailCoreComplete(s: string, i: nat, j: nat)
    requires !ContainsDoubleDot(s)
    requires 0 < i < j < |s| && s[i] == '@' && s[j] == '.'
    requires AllChars(s[..i], IsLocalChar)
    requires s[i + 1] != '-' && DottedLabels(s[i + 1..j])
    requires |s| - (j + 1) >= 2 && AllChars(s[j + 1..], IsAsciiLetter)
    ensures IsEmailCore(s)
  {
    assert forall k :: 0 <= k < i ==> s[k] == s[..i][k] && s[k] != '@';
    FirstIndexIs(s, '@', i);
    var d := s[i + 1..];
    assert d[..j - i - 1] == s[i + 1..j];
    assert d[0] == s[i + 1] && d[j - i - 1] == '.';
    assert d[j - i..] == s[j + 1..];
    EmailDomainComplete(d, j - i - 1);
  }

  lemma EmailDomainComplete(d: string, dj: nat)
    requires 0 < dj < |d| && d[dj] == '.' && d[0] != '-'
    requires DottedLabels(d[..dj])
    requires |d| - (dj + 1) >= 2 && AllChars(d[dj + 1..], IsAsciiLetter)
    ensures IsEmailDomain(d)
  {
    assert forall k :: dj < k < |d| ==> d[k] == d[dj + 1..][k - dj - 1] && d[k] != '.';
    LastIndexIs(d, '.', dj);
    LabelListComplete(d[..dj]);
  }

  /** `is_valid_email` never accepts two dots in a row, in the local part or the domain. */
  lemma EmailRejectsDoubleDot(s: string, k: nat)
    requires k + 1 < |s| && s[k] == '.' && s[k + 1] == '.'
    ensures !IsValidEmail(s)
  {
    if |s| > 0 && s[|s| - 1] == '\n' {
      var t := s[..|s| - 1];
      assert k + 1 < |t| by { assert s[k + 1] != '\n'; }
      assert t[k] == '.' && t[k + 1] == '.';
    }
  }

  // ---------------------------------------------------------------------
  // The character rules

  /** `is_valid_username`: non-empty and a full match of `[a-zA-Z0-9_]+`. */
  function IsValidUsername(s: string): (ok: bool)
    ensures ok <==> |s| > 0 && forall i :: 0 <= i < |s| ==> IsWordChar(s[i])
  {
    if s == "" then false else AllChars(s, IsWordChar)
  }

  const MinPasswordLength: nat := 8
  const MinPhoneLength: nat := 10

  /** `is_valid_password`: at least eight characters, whatever they are (so
      never empty, and a password of spaces passes). */
  function IsValidPassword(s: string): (ok: bool)
    ensures ok ==> s != ""
    ensures ok <==> |s| >= 8
  {
    |s| >= MinPasswordLength
  }

  /** `is_valid_phone`: `isdigit()` (so non-empty) and at least ten characters. */
  function IsValidPhone(s: string): (ok: bool)
    ensures ok <==> |s| >= 10 && forall i :: 0 <= i < |s| ==> IsDigit(s[i])
    ensures ok ==> s != ""
  {
    |s| > 0 && AllChars(s, IsDigit) && |s| >= MinPhoneLength
  }

  /** `is_valid_filename`: non-empty and none of the nine forbidden characters. */
  function IsValidFilename(s: string): (ok: bool)
    ensures ok <==> s != "" && forall i :: 0 <= i < |s| ==> !IsForbiddenFilenameChar(s[i])
  {
    s != "" && AllChars(s, c => !IsForbiddenFilenameChar(c))
  }

  // ---------------------------------------------------------------------
  // is_valid_url:  ^(https?|ftp)://[^\s/$.?#].[^\s]*$

  /** What follows the scheme: `[^\s/$.?#]`, then `.` (anything but a
      newline), then `[^\s]*`. */
  ghost predicate UrlRest(r: string) {
    |r| >= 2 &&
    !IsSpace(r[0]) && r[0] != '/' && r[0] != '$' && r[0] != '.' && r[0] != '?' && r[0] != '#' &&
    r[1] != '\n' &&
    forall k :: 2 <= k < |r| ==> !IsSpace(r[k])
  }

  /** The pattern without the `$` newline allowance: one of the three schemes, then the rest. */
  ghost predicate UrlPattern(s: string) {
    (|s| >= 7 && s[..7] == "http://" && UrlRest(s[7..])) ||
    (|s| >= 8 && s[..8] == "https://" && UrlRest(s[8..])) ||
    (|s| >= 6 && s[..6] == "ftp://" && UrlRest(s[6..]))
  }

  /** Recogniser: the scheme is the text before the first ':', and must be
      http, https or ftp, followed by "//". */
  function IsUrlCore(s: string): bool {
    match FirstIndexOf(s, ':')
    case None => false
    case Some(c) =>
      var scheme := s[..c];
      var r := s[c + 1..];
      (scheme == "http" || scheme == "https" || scheme == "ftp") &&
      |r| >= 4 && r[0] == '/' && r[1] == '/' &&
      !IsSpace(r[2]) && r[2] != '/' && r[2] != '$' && r[2] != '.' && r[2] != '?' && r[2] != '#' &&
      r[3] != '\n' &&
      AllChars(r[4..], c => !IsSpace(c))
  }

  lemma UrlCoreMatchesPattern(s: string)
    ensures IsUrlCore(s) <==> UrlPattern(s)
  {
    if IsUrlCore(s) {
      UrlCoreSound(s);
    }
    if UrlPattern(s) {
      if |s| >= 7 && s[..7] == "http://" && UrlRest(s[7..]) {
        assert s[..4] == s[..7][..4] && s[4..7] == s[..7][4..];
        UrlSchemeComplete(s, 4);
      } else if |s| >= 8 && s[..8] == "https://" && UrlRest(s[8..]) {
        assert s[..5] == s[..8][..5] && s[5..8] == s[..8][5..];
        UrlSchemeComplete(s, 5);
      } else {
        assert s[..3] == s[..6][..3] && s[3..6] == s[..6][3..];
        UrlSchemeComplete(s, 3);
      }
    }
  }

  /** What the recogniser accepts has the pattern's shape. */
  lemma UrlCoreSound(s: string)
    requires IsUrlCore(s)
    ensures UrlPattern(s)
  {
    var c := FirstIndexOf(s, ':').value;
    var r := s[c + 1..];
    var p := c + 3;
    assert s[..p] == s[..c] + [':'] + r[..2];
    assert s[p..] == r[2..];
    assert forall k :: 2 <= k < |r[2..]| ==> r[2..][k] == r[4..][k - 2];
  }

  /** A scheme of `c` characters, `://` and a rest of the pattern's shape
      pass the recogniser. */
  lemma UrlSchemeComplete(s: string, c: nat)
    requires c + 3 <= |s| && (s[..c] == "http" || s[..c] == "https" || s[..c] == "ftp")
    requires s[c..c + 3] == "://" && UrlRest(s[c + 3..])
    ensures IsUrlCore(s)
  {
    assert s[c] == s[c..c + 3][0] == ':';
    assert forall k :: 0 <= k < c ==> s[k] == s[..c][k] && s[k] != ':';
    FirstIndexIs(s, ':', c);
    var r := s[c + 1..];
    var rest := s[c + 3..];
    assert r[0] == s[c..c + 3][1] == '/' && r[1] == s[c..c + 3][2] == '/';
    assert r[2..] == rest;
    assert r[2] == rest[0] && r[3] == rest[1];
    assert forall k :: 0 <= k < |r[4..]| ==> r[4..][k] == rest[k + 2] && !IsSpace(r[4..][k]);
  }

  /** `is_valid_url`, with `$` allowing one final newline. */
  function IsValidUrl(s: string): (ok: bool)
    ensures ok <==> UrlPattern(s) || (|s| > 0 && s[|s| - 1] == '\n' && UrlPattern(s[..|s| - 1]))
  {
    UrlCoreMatchesPattern(s);
    UrlCoreMatchesPattern(DropLast(s));
    IsUrlCore(s) || (|s| > 0 && s[|s| - 1] == '\n' && IsUrlCore(s[..|s| - 1]))
  }

  /** `\s` covers the no-break space: a URL ending in one is refused, the
      same URL without it accepted. */
  lemma UrlRefusesNoBreakSpace(s: string)
    requires s == "http://ab\U{A0}"
    ensures IsValidUrl(s[..|s| - 1]) && !IsValidUrl(s)
  {
    var t := s[..|s| - 1];
    assert t[..7] == "http://" && t[7..] == "ab";
    assert s[7..] == "ab\U{A0}" && IsSpace(s[7..][2]);
    assert s[..8] != "https://" by { assert s[7] != 's'; }
    assert s[..6] != "ftp://" by { assert s[0] != 'f'; }
  }

  // ---------------------------------------------------------------------
  // get_file_extension:  Path(filename).suffix[1:]

  /** `PurePosixPath(s).name`: the last path component, where empty and
      "." components (repeated or trailing slashes, "./") are dropped. */
  function PathName(s: string): (n: string)
    ensures '/' !in n && n != "."
    ensures |n| <= |s|
    decreases |s|
  {
    match LastIndexOf(s, '/')
    case None => if s == "." then "" else s
    case Some(k) =>
      var last := s[k + 1..];
      if last == "" || last == "." then PathName(s[..k]) else last
  }

  /** `get_file_extension`: the pathlib suffix of the last component without
      its dot. A dot counts only when it is neither the first nor the last
      character of that component, so ".bashrc" and "name." have none. */
  function GetFileExtension(s: string): (ext: string)
    ensures '.' !in ext && '/' !in ext
    ensures var n := PathName(s);
      ext != "" <==> exists i :: 0 < i < |n| - 1 && n[i] == '.' && forall k :: i < k < |n| ==> n[k] != '.'
    ensures var n := PathName(s);
      ext != "" ==> |ext| + 1 < |n| && n[|n| - |ext| - 1] == '.' && n[|n| - |ext|..] == ext
  {
    var n := PathName(s);
    match LastIndexOf(n, '.')
    case None => ""
    case Some(i) => if 0 < i < |n| - 1 then n[i + 1..] else ""
  }
}
