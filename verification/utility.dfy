/** The validators of the older `Utility` class (`utility.py`).

    Password length, phone and URL rules are the same code as the
    application's and are the members of `Validators`; what differs is
    modelled here: the file extension, the username rule, the weaker email
    pattern, and the unsalted digest comparison. */
module Utility {
  import opened Common
  import opened Validators

  /** `get_file_extension`: everything after the last dot of the whole
      string, or "" when there is no dot. */
  function GetFileExtension(s: string): (ext: string)
    ensures '.' !in ext
    ensures ext == "" <==> (forall i :: 0 <= i < |s| ==> s[i] != '.') || s[|s| - 1] == '.'
    ensures ext != "" ==> |ext| < |s| && s[|s| - |ext| - 1] == '.' && s[|s| - |ext|..] == ext
  {
    match LastIndexOf(s, '.')
    case None => ""
    case Some(i) => s[i + 1..]
  }

  /** `is_valid_filename`: falsy names, and names that contain any of the
      nine forbidden characters, are rejected. It is the application's rule. */
  function IsValidFilename(s: string): (ok: bool)
    ensures ok <==> Validators.IsValidFilename(s)
  {
    s != "" && IndexWhere(s, IsForbiddenFilenameChar).None?
  }

  /** `is_valid_username`: the same test as `is_valid_filename`. */
  function IsValidUsername(s: string): (ok: bool)
    ensures ok <==> s != "" && forall i :: 0 <= i < |s| ==> !IsForbiddenFilenameChar(s[i])
  {
    IsValidFilename(s)
  }

  /** `gethash_pwd`: the digest of the password; the digest function
      (SHA-256 as hexadecimal) is a parameter. */
  function GetHashPwd(digest: string -> string, password: string): string {
    digest(password)
  }

  /** `pwd_match`: the password's digest equals the stored one. */
  function PwdMatch(digest: string -> string, password: string, stored: string): (ok: bool)
    ensures ok <==> stored == GetHashPwd(digest, password)
  {
    digest(password) == stored
  }

  /** A stored digest matches the password it was made from, and any other
      password with the same digest: no salt separates them. */
  lemma PwdMatchAcceptsSameDigest(digest: string -> string, password: string, other: string)
    requires digest(other) == digest(password)
    ensures PwdMatch(digest, password, GetHashPwd(digest, password))
    ensures PwdMatch(digest, other, GetHashPwd(digest, password))
  {
  }

  // ---------------------------------------------------------------------
  // is_valid_email:  ^[a-zA-Z0-9_.+-]+@[a-zA-Z0-9-]+\.[a-zA-Z0-9-.]+$

  /** The pattern without the `$` newline allowance, as the regex reads it. */
  ghost predicate EmailPattern(s: string) {
    exists i, j :: 0 < i && i + 1 < j && j + 1 < |s| && s[i] == '@' && s[j] == '.' &&
      AllChars(s[..i], IsLocalChar) && AllChars(s[i + 1..j], IsLabelChar) &&
      AllChars(s[j + 1..], IsLabelOrDot)
  }

  /** Recogniser for the domain: the first dot ends the single label. */
  function IsEmailDomain(d: string): bool {
    match FirstIndexOf(d, '.')
    case None => false
    case Some(f) => f > 0 && AllChars(d[..f], IsLabelChar) && f + 1 < |d| && AllChars(d[f + 1..], IsLabelOrDot)
  }

  /** Recogniser: the first `@` ends the local part. */
  function IsEmailCore(s: string): bool {
    match FirstIndexOf(s, '@')
    case None => false
    case Some(i) => i > 0 && AllChars(s[..i], IsLocalChar) && IsEmailDomain(s[i + 1..])
  }

  lemma EmailCoreMatchesPattern(s: string)
    ensures IsEmailCore(s) <==> EmailPattern(s)
  {
    if IsEmailCore(s) {
      var i := FirstIndexOf(s, '@').value;
      var d := s[i + 1..];
      var f := FirstIndexOf(d, '.').value;
      var j := i + 1 + f;
      assert s[i + 1..j] == d[..f];
      assert s[j + 1..] == d[f + 1..];
      assert s[j] == d[f];
    }
    if EmailPattern(s) {
      var i, j :| 0 < i && i + 1 < j && j + 1 < |s| && s[i] == '@' && s[j] == '.' &&
        AllChars(s[..i], IsLocalChar) && AllChars(s[i + 1..j], IsLabelChar) &&
        AllChars(s[j + 1..], IsLabelOrDot);
      EmailCoreComplete(s, i, j);
    }
  }

  lemma EmailCoreComplete(s: string, i: nat, j: nat)
    requires 0 < i && i + 1 < j && j + 1 < |s| && s[i] == '@' && s[j] == '.'
    requires AllChars(s[..i], IsLocalChar) && AllChars(s[i + 1..j], IsLabelChar)
    requires AllChars(s[j + 1..], IsLabelOrDot)
    ensures IsEmailCore(s)
  {
    assert forall k :: 0 <= k < i ==> s[k] == s[..i][k] && s[k] != '@';
    FirstIndexIs(s, '@', i);
    var d := s[i + 1..];
    var f := j - i - 1;
    assert d[f] == s[j];
    forall k | 0 <= k < f
      ensures d[k] != '.'
    {
      assert d[k] == s[i + 1 + k] == s[i + 1..j][k];
    }
    FirstIndexIs(d, '.', f);
    assert d[..f] == s[i + 1..j];
    assert d[f + 1..] == s[j + 1..];
  }

  /** `is_valid_email`, with `$` allowing one final newline. */
  function IsValidEmail(s: string): (ok: bool)
    ensures ok <==> EmailPattern(s) || (|s| > 0 && s[|s| - 1] == '\n' && EmailPattern(s[..|s| - 1]))
  {
    EmailCoreMatchesPattern(s);
    EmailCoreMatchesPattern(DropLast(s));
    IsEmailCore(s) || (|s| > 0 && s[|s| - 1] == '\n' && IsEmailCore(s[..|s| - 1]))
  }

  // ---------------------------------------------------------------------
  // How the two validator sets compare

  /** Every address the application accepts, the older pattern accepts. */
  lemma AppEmailIsLegacyEmail(s: string)
    requires Validators.IsValidEmail(s)
    ensures IsValidEmail(s)
  {
    if Validators.IsEmailCore(s) {
      AppCoreIsLegacyCore(s);
    } else {
      AppCoreIsLegacyCore(s[..|s| - 1]);
    }
  }

  lemma AppCoreIsLegacyCore(s: string)
    requires Validators.IsEmailCore(s)
    ensures IsEmailCore(s)
  {
    var i := FirstIndexOf(s, '@').value;
    AppDomainIsLegacyDomain(s[i + 1..]);
  }

  lemma AppDomainIsLegacyDomain(d: string)
    requires Validators.IsEmailDomain(d)
    ensures IsEmailDomain(d)
  {
    var j := LastIndexOf(d, '.').value;
    var labels := d[..j];
    assert d[0] == labels[0] != '.';
    var f := FirstIndexOf(d, '.').value;
    assert 0 < f <= j;
    assert AllChars(d[..f], IsLabelChar) by {
      forall k | 0 <= k < f
        ensures IsLabelChar(d[..f][k])
      {
        assert d[..f][k] == labels[k];
        assert IsLabelOrDot(labels[k]);
      }
    }
    assert AllChars(d[f + 1..], IsLabelOrDot) by {
      forall m | f + 1 <= m < |d|
        ensures IsLabelOrDot(d[m])
      {
        if m < j { assert d[m] == labels[m]; }
        else if m > j { assert d[m] == d[j + 1..][m - j - 1]; }
      }
      var tail := d[f + 1..];
      assert forall k :: 0 <= k < |tail| ==> tail[k] == d[f + 1 + k];
    }
  }

  /** The older pattern also accepts one-letter top-level domains, which
      the application rejects. */
  lemma LegacyEmailAcceptsShortTld()
    ensures IsValidEmail("a@b.c") && !Validators.IsValidEmail("a@b.c")
  {
    LegacyAcceptsShortTldCore("a@b.c");
    ShortTldIsNoAppDomain("b.c");
    assert "a@b.c"[2..] == "b.c";
    FirstIndexIs("a@b.c", '@', 1);
    assert !Validators.IsEmailCore("a@b.c");
    assert "a@b.c"[|"a@b.c"| - 1] != '\n';
  }

  lemma LegacyAcceptsShortTldCore(s: string)
    requires s == "a@b.c"
    ensures IsEmailCore(s)
  {
    FirstIndexIs(s, '@', 1);
    assert s[2..] == "b.c" && s[..1] == "a";
    FirstIndexIs("b.c", '.', 1);
    assert "b.c"[2..] == "c" && "b.c"[..1] == "b";
    assert IsEmailDomain("b.c");
  }

  lemma ShortTldIsNoAppDomain(d: string)
    requires d == "b.c"
    ensures !Validators.IsEmailDomain(d)
  {
    LastIndexIs(d, '.', 1);
  }

  /** The older pattern also accepts doubled dots, which the application
      rejects. */
  lemma LegacyEmailAcceptsDoubleDot()
    ensures IsValidEmail("a..b@c.de") && !Validators.IsValidEmail("a..b@c.de")
  {
    var t := "a..b@c.de";
    EmailRejectsDoubleDot(t, 1);
    LegacyAcceptsDoubleDotCore(t);
  }

  lemma LegacyAcceptsDoubleDotCore(t: string)
    requires t == "a..b@c.de"
    ensures IsEmailCore(t)
  {
    FirstIndexIs(t, '@', 4);
    assert t[..4] == "a..b" && t[5..] == "c.de";
    FirstIndexIs("c.de", '.', 1);
    assert "c.de"[2..] == "de" && "c.de"[..1] == "c";
    assert AllChars("a..b", IsLocalChar);
    assert IsEmailDomain("c.de");
  }

  /** Every application username is an older-style username; the older rule
      also accepts dots and spaces. */
  lemma AppUsernameIsLegacyUsername(s: string)
    requires Validators.IsValidUsername(s)
    ensures IsValidUsername(s)
  {
  }

  lemma LegacyUsernameIsWeaker()
    ensures IsValidUsername("a.b c") && !Validators.IsValidUsername("a.b c")
  {
    assert !IsWordChar("a.b c"[1]);
  }

  /** For a bare file name whose last dot is neither its first nor its last
      character, both versions of `get_file_extension` agree. */
  lemma ExtensionsAgreeOnPlainNames(s: string, i: nat)
    requires forall k :: 0 <= k < |s| ==> s[k] != '/'
    requires 0 < i < |s| - 1 && s[i] == '.'
    requires forall k :: i < k < |s| ==> s[k] != '.'
    ensures GetFileExtension(s) == Validators.GetFileExtension(s) == s[i + 1..]
  {
    assert LastIndexOf(s, '/') == None;
    assert s != "." by { assert |s| > 2; }
    assert PathName(s) == s;
    LastIndexIs(s, '.', i);
  }

  /** They differ on a leading dot, and on a dot in a directory name. */
  lemma ExtensionsDiffer()
    ensures GetFileExtension(".bashrc") == "bashrc" && Validators.GetFileExtension(".bashrc") == ""
    ensures GetFileExtension("v1.2/readme") == "2/readme" && Validators.GetFileExtension("v1.2/readme") == ""
  {
    LeadingDotExtensions(".bashrc");
    DirectoryDotExtensions("v1.2/readme");
  }

  lemma LeadingDotExtensions(s: string)
    requires s == ".bashrc"
    ensures GetFileExtension(s) == "bashrc" && Validators.GetFileExtension(s) == ""
  {
    LastIndexIs(s, '.', 0);
    assert s[1..] == "bashrc";
    assert LastIndexOf(s, '/') == None;
    assert PathName(s) == s;
  }

  lemma DirectoryDotExtensions(p: string)
    requires p == "v1.2/readme"
    ensures GetFileExtension(p) == "2/readme" && Validators.GetFileExtension(p) == ""
  {
    LastIndexIs(p, '.', 2);
    assert p[3..] == "2/readme";
    LastIndexIs(p, '/', 4);
    assert p[5..] == "readme";
    assert PathName(p) == "readme";
    assert LastIndexOf("readme", '.') == None;
  }
}
