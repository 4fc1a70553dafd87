/** Directory entries as the browser's directory handle lists them, and the
    image-name patterns that app.js matches entry names against. */
module Entries {

  datatype Option<+T> = None | Some(value: T)

  /** The `kind` of a directory entry: "file" or "directory". */
  datatype Kind = File | Directory

  datatype Entry = Entry(name: string, kind: Kind)

  /** What one asynchronous iteration over `directoryHandle.values()` yields:
      the entries in iteration order, or a rejection (for instance because the
      user revoked the permission). */
  datatype ScanResult = Listing(entries: seq<Entry>) | ScanFailed

  /** The alternatives of the group `(jpg|jpeg|png|webp|gif)`. */
  const ImageExtensions: seq<string> := ["jpg", "jpeg", "png", "webp", "gif"]

  /** Case folding of a regular expression with the `i` flag and without `u`:
      a character matches a pattern letter when both fold to the same
      character, and that folding never maps a character at or above 128 to
      one below 128, so of the characters the patterns mention only the ASCII
      letters fold. */
  function LowerAscii(c: char): (l: char)
  {
    if 'A' <= c <= 'Z' then (c as int + 32) as char else c
  }

  /** A character matches a lower-case pattern letter exactly when it is that
      letter or its upper-case form, and matches the dot only when it is a dot. */
  lemma FoldMatchesPatternCharacter(c: char, p: char)
    requires 'a' <= p <= 'z' || p == '.'
    ensures LowerAscii(c) == p <==> c == p || ('a' <= p <= 'z' && c as int == p as int - 32)
  {
  }

  function LowerAll(s: string): (r: string)
    ensures |r| == |s|
  {
    seq(|s|, i requires 0 <= i < |s| => LowerAscii(s[i]))
  }

  /** `name` ends with `suffix` (written in lower case), ignoring ASCII case. */
  predicate EndsWithIgnoringCase(name: string, suffix: string) {
    |suffix| <= |name| && LowerAll(name[|name| - |suffix|..]) == suffix
  }

  /** The pattern `/\.(jpg|jpeg|png|webp|gif)$/i` of app.js:202 and of the
      worker at app.js:331 (where the template literal turns `\\.` into `\.`):
      a dot and one of the extensions at the very end of the name. */
  predicate IsImageName(name: string) {
    exists ext :: ext in ImageExtensions && EndsWithIgnoringCase(name, "." + ext)
  }

  lemma LowerAllOfSlice(s: string, k: nat)
    requires k <= |s|
    ensures LowerAll(s)[k..] == LowerAll(s[k..])
  {
  }

  lemma LowerAllIdempotent(s: string)
    ensures LowerAll(LowerAll(s)) == LowerAll(s)
  {
  }

  /** The image pattern ignores ASCII case: a name matches exactly when its
      lower-cased form does. */
  lemma ImageNameIgnoresCase(name: string)
    ensures IsImageName(name) <==> IsImageName(LowerAll(name))
  {
    var low := LowerAll(name);
    forall ext | ext in ImageExtensions
      ensures EndsWithIgnoringCase(name, "." + ext) <==> EndsWithIgnoringCase(low, "." + ext)
    {
      var suffix := "." + ext;
      if |suffix| <= |name| {
        var k := |name| - |suffix|;
        LowerAllOfSlice(name, k);
        LowerAllIdempotent(name[k..]);
      }
    }
  }

  /** The characters that `.` in a regular expression does not match. */
  predicate IsLineTerminator(c: char) {
    c == '\n' || c == '\r' || c == '\U{2028}' || c == '\U{2029}'
  }

  /** The pattern of the regular-expression literal `/\\.(jpg|jpeg|png|webp|gif)$/i`
      at app.js:390: outside a template literal `\\` is a literal backslash and
      `.` is any character but a line terminator, so the name must end with a
      backslash, one more character and an extension. */
  predicate MatchesBaselinePattern(name: string) {
    exists ext :: ext in ImageExtensions && |ext| + 2 <= |name| &&
      name[|name| - |ext| - 2] == '\\' &&
      !IsLineTerminator(name[|name| - |ext| - 1]) &&
      EndsWithIgnoringCase(name, ext)
  }

  /** The entries a listing loop keeps: kind "file" and a matching name, in order. */
  function Kept(entries: seq<Entry>, matches: string -> bool): (r: seq<Entry>)
  {
    if entries == [] then []
    else
      var last := entries[|entries| - 1];
      Kept(entries[..|entries| - 1], matches) + (if last.kind == File && matches(last.name) then [last] else [])
  }

  function Names(entries: seq<Entry>): (r: seq<string>)
    ensures |r| == |entries|
    ensures forall i :: 0 <= i < |entries| ==> r[i] == entries[i].name
  {
    seq(|entries|, i requires 0 <= i < |entries| => entries[i].name)
  }

  /** A JavaScript `Set` built from an array of names. */
  function NameSet(names: seq<string>): (r: set<string>)
  {
    set n | n in names
  }

  /** The filter keeps exactly the file entries whose names match. */
  lemma {:induction false} KeptMembers(entries: seq<Entry>, matches: string -> bool, e: Entry)
    ensures e in Kept(entries, matches) <==> e in entries && e.kind == File && matches(e.name)
    decreases |entries|
  {
    if entries != [] {
      var init := entries[..|entries| - 1];
      KeptMembers(init, matches, e);
      assert entries == init + [entries[|entries| - 1]];
    }
  }

  /** Appending one entry to a listing extends the filtered listing by at most that entry. */
  lemma KeptSnoc(entries: seq<Entry>, e: Entry, matches: string -> bool)
    ensures Kept(entries + [e], matches) == Kept(entries, matches) + (if e.kind == File && matches(e.name) then [e] else [])
  {
    assert (entries + [e])[..|entries|] == entries;
  }

  /** The baseline pattern can only match a name that holds a backslash. */
  lemma BaselinePatternNeedsBackslash(name: string)
    ensures MatchesBaselinePattern(name) ==> '\\' in name
  {
    if MatchesBaselinePattern(name) {
      var ext :| ext in ImageExtensions && |ext| + 2 <= |name| &&
        name[|name| - |ext| - 2] == '\\' &&
        !IsLineTerminator(name[|name| - |ext| - 1]) &&
        EndsWithIgnoringCase(name, ext);
      assert name[|name| - |ext| - 2] in name;
    }
  }

  /** "a.JPG" is an image name for the gallery and the worker, and not for the baseline. */
  lemma PlainNameMissesBaseline()
    ensures IsImageName("a.JPG")
    ensures !MatchesBaselinePattern("a.JPG")
  {
    assert LowerAll("a.JPG"[1..]) == ".jpg";
    assert EndsWithIgnoringCase("a.JPG", "." + "jpg");
    BaselinePatternNeedsBackslash("a.JPG");
  }
}
