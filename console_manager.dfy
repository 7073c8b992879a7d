/**
 * The decisions of Veeam/ConsoleManager.cs that do not depend on the
 * console: the guard chain of IsValidAbsoluteDirectoryPath with its fixed
 * messages, the answer test of GetUserConfirmation, and the fallback of
 * GetTimeSpan.  What the validator asks of the host (Path.GetInvalidPathChars,
 * Path.IsPathRooted, Path.GetPathRoot, OperatingSystem.IsWindows) is handed in
 * as a Host value, and what Console.ReadLine and TimeSpan.TryParse return is
 * handed in as an Option.
 */
module ConsoleManager {
  import opened Wrappers
  import opened Configuration

  /** The host facts the validator consults. */
  datatype Host = Host(
    invalidPathChars: seq<char>,
    isPathRooted: string -> bool,
    getPathRoot: string -> string,
    isWindows: bool)

  /** Path.GetInvalidPathChars on Windows: '|', NUL and the controls 1 to 31. */
  const WindowsInvalidPathChars: seq<char> := ['|', '\0'] + seq(31, i requires 0 <= i < 31 => (i + 1) as char)

  /** Path.GetInvalidPathChars on Unix: NUL only. */
  const UnixInvalidPathChars: seq<char> := ['\0']

  /** Path.IsPathRooted on Unix: the path starts with '/'. */
  function UnixIsPathRooted(path: string): bool
  {
    |path| > 0 && path[0] == '/'
  }

  // The messages of the ArgumentExceptions the validator throws.
  const EmptyPathMessage: string := "Path cannot be null or empty."
  const InvalidCharsMessage: string := "Path contains invalid characters."
  const NotAbsoluteMessage: string := "Path must be absolute."
  const NoDriveLetterMessage: string := "Path must be rooted to a drive letter (e.g., C:\\)."

  // ---------------------------------------------------------------------------
  // Characters and strings

  /** char.IsWhiteSpace: the controls TAB to CR, NEL, the space separators
      (space, NBSP, OGHAM SPACE MARK, U+2000 to U+200A, NARROW NBSP, MEDIUM
      MATHEMATICAL SPACE, IDEOGRAPHIC SPACE), and the line and paragraph
      separators. */
  predicate IsWhiteSpace(c: char)
  {
    || '\t' <= c <= '\r'
    || c == ' ' || c == '\U{0085}' || c == '\U{00A0}' || c == '\U{1680}'
    || '\U{2000}' <= c <= '\U{200A}'
    || c == '\U{2028}' || c == '\U{2029}' || c == '\U{202F}' || c == '\U{205F}' || c == '\U{3000}'
  }

  /** What a console line may carry around an answer is white space; letters,
      digits and NUL are not. */
  lemma ConsolePaddingIsWhiteSpace()
    ensures IsWhiteSpace(' ') && IsWhiteSpace('\t') && IsWhiteSpace('\r') && IsWhiteSpace('\n')
    ensures !IsWhiteSpace('y') && !IsWhiteSpace('Y') && !IsWhiteSpace('0') && !IsWhiteSpace('\0')
  {
  }

  /** string.IsNullOrWhiteSpace for a string that is not null. */
  predicate IsNullOrWhiteSpace(s: string)
  {
    forall i :: 0 <= i < |s| ==> IsWhiteSpace(s[i])
  }

  /** string.IndexOfAny: the first index of a character of anyOf, or -1. */
  function IndexOfAny(s: string, anyOf: seq<char>): (r: int)
    ensures -1 <= r < |s|
    ensures r == -1 <==> forall i :: 0 <= i < |s| ==> s[i] !in anyOf
    ensures r >= 0 ==> s[r] in anyOf && forall j :: 0 <= j < r ==> s[j] !in anyOf
  {
    if s == [] then -1
    else if s[0] in anyOf then 0
    else
      var k := IndexOfAny(s[1..], anyOf);
      if k < 0 then -1 else k + 1
  }

  predicate IsAsciiLetter(c: char)
  {
    'A' <= c <= 'Z' || 'a' <= c <= 'z'
  }

  /** Regex.IsMatch(root, @"^[A-Za-z]:\\$"): a letter, a colon and a backslash.
      Without RegexOptions.Multiline, .NET's '$' also matches just before a
      final line feed, so that one trailing '\n' is accepted too. */
  predicate IsDriveRoot(root: string)
  {
    && (|root| == 3 || (|root| == 4 && root[3] == '\n'))
    && IsAsciiLetter(root[0]) && root[1] == ':' && root[2] == '\\'
  }

  /** The regex takes a drive root with either letter case, and refuses a bare
      drive, a UNC root, a digit for a letter and a doubled backslash. */
  lemma DriveRootMatches()
    ensures IsDriveRoot("C:\\") && IsDriveRoot("z:\\") && IsDriveRoot("D:\\\n")
    ensures !IsDriveRoot("C:") && !IsDriveRoot("\\\\server\\share\\")
    ensures !IsDriveRoot("1:\\") && !IsDriveRoot("C:\\\\")
  {
  }

  // ---------------------------------------------------------------------------
  // IsValidAbsoluteDirectoryPath

  /** The guards in the order they are tried; each guard is the condition under
      which the validator gets past it. */
  predicate NotBlank(path: string)
  {
    !IsNullOrWhiteSpace(path)
  }

  predicate NoInvalidChar(path: string, host: Host)
  {
    forall i :: 0 <= i < |path| ==> path[i] !in host.invalidPathChars
  }

  predicate HasDriveRootWhereNeeded(path: string, host: Host)
  {
    host.isWindows ==> IsDriveRoot(host.getPathRoot(path))
  }

  /** The validator: Success(true), or Failure carrying the message of the
      ArgumentException it throws.  A null path is not modelled, since the
      only caller passes what GetUserInput returns, never null. */
  function IsValidAbsoluteDirectoryPath(path: string, host: Host): (r: Result<bool, string>)
    // it never returns false: it returns true or throws
    ensures r != Success(false)
    // each message exactly when every earlier guard passed and this one failed
    ensures r == Failure(EmptyPathMessage) <==> !NotBlank(path)
    ensures r == Failure(InvalidCharsMessage) <==>
      NotBlank(path) && !NoInvalidChar(path, host)
    ensures r == Failure(NotAbsoluteMessage) <==>
      NotBlank(path) && NoInvalidChar(path, host) && !host.isPathRooted(path)
    ensures r == Failure(NoDriveLetterMessage) <==>
      NotBlank(path) && NoInvalidChar(path, host) && host.isPathRooted(path) && !HasDriveRootWhereNeeded(path, host)
    // it accepts exactly the paths that pass every guard
    ensures r.Success? <==>
      NotBlank(path) && NoInvalidChar(path, host) && host.isPathRooted(path) && HasDriveRootWhereNeeded(path, host)
  {
    if IsNullOrWhiteSpace(path) then Failure(EmptyPathMessage)
    else if IndexOfAny(path, host.invalidPathChars) >= 0 then Failure(InvalidCharsMessage)
    else if !host.isPathRooted(path) then Failure(NotAbsoluteMessage)
    else if host.isWindows && (var root := host.getPathRoot(path); root == "" || !IsDriveRoot(root)) then
      Failure(NoDriveLetterMessage)
    else Success(true)
  }

  /** The emptiness guard comes first: a blank path is refused with its message
      whatever the host. */
  lemma BlankPathRejectedOnEveryHost(path: string, h1: Host, h2: Host)
    requires IsNullOrWhiteSpace(path)
    ensures IsValidAbsoluteDirectoryPath(path, h1) == IsValidAbsoluteDirectoryPath(path, h2) == Failure(EmptyPathMessage)
  {
  }

  /** Away from Windows the drive-letter guard never fires: the verdict does not
      depend on the path root. */
  lemma RootIgnoredOffWindows(path: string, host: Host, getPathRoot: string -> string)
    requires !host.isWindows
    ensures IsValidAbsoluteDirectoryPath(path, host) ==
            IsValidAbsoluteDirectoryPath(path, host.(getPathRoot := getPathRoot))
  {
  }

  /** "Invalid|Path" on Windows is refused for its '|', before rootedness is
      looked at. */
  lemma InvalidPathRejectedOnWindows(host: Host)
    requires host.invalidPathChars == WindowsInvalidPathChars
    ensures IsValidAbsoluteDirectoryPath("Invalid|Path", host) == Failure(InvalidCharsMessage)
  {
    assert "Invalid|Path"[7] == '|' == host.invalidPathChars[0];
    assert !IsWhiteSpace("Invalid|Path"[0]);
  }

  /** On Unix only NUL is an invalid path character and only a leading '/'
      roots a path, so a non-blank relative path such as "Invalid|Path" is
      refused as not absolute rather than for its characters. */
  lemma UnixRefusesRelativePaths(path: string, host: Host)
    requires host.invalidPathChars == UnixInvalidPathChars
    requires host.isPathRooted == UnixIsPathRooted
    requires NotBlank(path) && '\0' !in path && path[0] != '/'
    ensures IsValidAbsoluteDirectoryPath(path, host) == Failure(NotAbsoluteMessage)
  {
    assert NoInvalidChar(path, host) by {
      forall i | 0 <= i < |path| ensures path[i] != '\0' {
        assert path[i] in path;
      }
    }
  }

  /** On Windows a path is accepted only below a root of exactly a letter, a
      colon and a backslash (or that root and a final line feed). */
  lemma WindowsAcceptsOnlyDriveRoots(path: string, host: Host)
    requires host.isWindows
    requires IsValidAbsoluteDirectoryPath(path, host).Success?
    ensures var root := host.getPathRoot(path);
      && root[..3] == [root[0], ':', '\\'] && IsAsciiLetter(root[0])
      && (|root| == 3 || root == root[..3] + "\n")
  {
  }

  // ---------------------------------------------------------------------------
  // GetUserConfirmation

  /** The index of the first character at or after i that is not white
      space, or |s|. */
  function ContentStart(s: string, i: nat): (k: nat)
    requires i <= |s|
    ensures i <= k <= |s|
    ensures forall j :: i <= j < k ==> IsWhiteSpace(s[j])
    ensures k < |s| ==> !IsWhiteSpace(s[k])
    decreases |s| - i
  {
    if i < |s| && IsWhiteSpace(s[i]) then ContentStart(s, i + 1) else i
  }

  /** The index just past the last character before e, and not before k, that
      is not white space, or k. */
  function ContentEnd(s: string, k: nat, e: nat): (end: nat)
    requires k <= e <= |s|
    ensures k <= end <= e
    ensures forall j :: end <= j < e ==> IsWhiteSpace(s[j])
    ensures k < end ==> !IsWhiteSpace(s[end - 1])
    decreases e
  {
    if k < e && IsWhiteSpace(s[e - 1]) then ContentEnd(s, k, e - 1) else e
  }

  /** string.Trim(): the white space at both ends dropped. */
  function Trim(s: string): (t: string)
    ensures var k := ContentStart(s, 0);
      && k + |t| <= |s|
      && (forall i :: 0 <= i < |t| ==> t[i] == s[k + i])
      && (forall i :: 0 <= i < k ==> IsWhiteSpace(s[i]))
      && (forall i :: k + |t| <= i < |s| ==> IsWhiteSpace(s[i]))
      && (t != [] ==> !IsWhiteSpace(t[0]) && !IsWhiteSpace(t[|t| - 1]))
  {
    var k := ContentStart(s, 0);
    s[k..ContentEnd(s, k, |s|)]
  }

  /** A string trims away to nothing exactly when it is blank. */
  lemma TrimEmptyIffBlank(s: string)
    ensures IsNullOrWhiteSpace(s) <==> Trim(s) == []
  {
    if Trim(s) != [] {
      assert s[ContentStart(s, 0)] == Trim(s)[0];
    }
  }

  /** char.ToLower on the ASCII letters. */
  function ToLowerChar(c: char): (l: char)
    ensures 'A' <= c <= 'Z' ==> 'a' <= l <= 'z' && l as int == c as int + 32
    ensures !('A' <= c <= 'Z') ==> l == c
  {
    if 'A' <= c <= 'Z' then (c as int + 32) as char else c
  }

  /** string.ToLower, character by character. */
  function ToLower(s: string): (t: string)
    ensures |t| == |s|
    ensures forall i :: 0 <= i < |s| ==> t[i] == ToLowerChar(s[i])
  {
    seq(|s|, i requires 0 <= i < |s| => ToLowerChar(s[i]))
  }

  /** The only strings that lower-case to "y" are "y" and "Y". */
  lemma ToLowerIsY(s: string)
    ensures ToLower(s) == "y" <==> s == "y" || s == "Y"
  {
    if ToLower(s) == "y" {
      assert ToLower(s)[0] == ToLowerChar(s[0]);
    }
  }

  /** GetUserConfirmation's answer test: response?.Trim().ToLower() == "y".
      A null response (end of input) is None and is not a yes. */
  function IsConfirmed(response: Option<string>): (yes: bool)
    ensures yes <==> response.Some? && Trim(response.value) in {"y", "Y"}
  {
    ToLowerIsY(if response.Some? then Trim(response.value) else "");
    response.Some? && ToLower(Trim(response.value)) == "y"
  }

  /** A "Y" between white space is a yes. */
  lemma PaddedYIsConfirmed()
    ensures IsConfirmed(Some(" Y\r\n"))
  {
    assert ContentStart(" Y\r\n", 0) == 1;
    assert ContentEnd(" Y\r\n", 1, 4) == 2;
  }

  /** "yes", "n", the empty answer and end of input are not a yes. */
  lemma OtherAnswersAreNotConfirmed()
    ensures !IsConfirmed(Some("yes")) && !IsConfirmed(Some("n")) && !IsConfirmed(Some(""))
    ensures !IsConfirmed(None)
  {
    assert |Trim("yes")| == 3;
  }

  // ---------------------------------------------------------------------------
  // GetTimeSpan

  /** The check interval chosen from what TimeSpan.TryParse made of the input:
      the parsed value, or five minutes when the input did not parse. */
  function IntervalOrDefault(parsed: Option<TimeSpan>): (interval: TimeSpan)
    ensures parsed.Some? ==> interval == parsed.value
    ensures parsed.None? ==> interval.ticks == 5 * 60 * 10_000_000
  {
    if parsed.Some? then parsed.value else FromMinutes(5)
  }
}
