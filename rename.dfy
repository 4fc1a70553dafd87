/** Renaming a file (app.js:253-311): the modal splits the old name into a
    base and an extension, and saving rebuilds a name from the typed base and
    copies the bytes to it before removing the old entry, since the directory
    offers no rename of its own. */
module Rename {
  import opened Entries

  newtype byte = b: int | 0 <= b < 256

  /** The files of the chosen folder, by name. */
  type Directory = map<string, seq<byte>>

  // ---------------------------------------------------------------------------
  // `String.prototype.trim`
  // ---------------------------------------------------------------------------

  /** The WhiteSpace and LineTerminator characters of ECMAScript, which `trim`
      removes: tab, vertical tab, form feed, the byte-order mark, the space
      separators of Unicode (U+0020, U+00A0, U+1680, U+2000 to U+200A, U+202F,
      U+205F, U+3000) and the four line terminators. */
  const JsWhitespace: set<char> := {
    '\t', '\U{000B}', '\U{000C}', '\U{FEFF}',
    ' ', '\U{00A0}', '\U{1680}',
    '\U{2000}', '\U{2001}', '\U{2002}', '\U{2003}', '\U{2004}', '\U{2005}',
    '\U{2006}', '\U{2007}', '\U{2008}', '\U{2009}', '\U{200A}',
    '\U{202F}', '\U{205F}', '\U{3000}',
    '\n', '\r', '\U{2028}', '\U{2029}'
  }

  predicate IsJsWhitespace(c: char) {
    c in JsWhitespace
  }

  predicate AllWhitespace(s: string) {
    forall k :: 0 <= k < |s| ==> IsJsWhitespace(s[k])
  }

  lemma AllWhitespaceConcat(a: string, b: string)
    requires AllWhitespace(a) && AllWhitespace(b)
    ensures AllWhitespace(a + b)
  {
    forall k | 0 <= k < |a + b| ensures IsJsWhitespace((a + b)[k]) {
      if k >= |a| {
        assert (a + b)[k] == b[k - |a|];
      }
    }
  }

  /** `trimStart`: drops the leading whitespace. */
  function TrimStart(s: string): (r: string)
    ensures |r| <= |s| && s == s[..|s| - |r|] + r
    ensures AllWhitespace(s[..|s| - |r|])
    ensures r != [] ==> !IsJsWhitespace(r[0])
  {
    if s != [] && IsJsWhitespace(s[0]) then
      var r := TrimStart(s[1..]);
      LeadingStep(s, r);
      r
    else
      s
  }

  /** One step of `TrimStart`: a whitespace head joins the dropped prefix. */
  lemma LeadingStep(s: string, r: string)
    requires s != [] && IsJsWhitespace(s[0])
    requires |r| <= |s| - 1 && s[1..] == s[1..][..|s| - 1 - |r|] + r
    requires AllWhitespace(s[1..][..|s| - 1 - |r|])
    ensures s == s[..|s| - |r|] + r
    ensures AllWhitespace(s[..|s| - |r|])
  {
    var w := s[1..][..|s| - 1 - |r|];
    assert s[..|s| - |r|] == [s[0]] + w;
    assert s == [s[0]] + s[1..];
    AllWhitespaceConcat([s[0]], w);
  }

  /** `trimEnd`: drops the trailing whitespace. */
  function TrimEnd(s: string): (r: string)
    ensures |r| <= |s| && s == r + s[|r|..]
    ensures AllWhitespace(s[|r|..])
    ensures r != [] ==> !IsJsWhitespace(r[|r| - 1])
  {
    if s != [] && IsJsWhitespace(s[|s| - 1]) then
      var r := TrimEnd(s[..|s| - 1]);
      TrailingStep(s, r);
      r
    else
      s
  }

  /** One step of `TrimEnd`: a whitespace tail joins the dropped suffix. */
  lemma TrailingStep(s: string, r: string)
    requires s != [] && IsJsWhitespace(s[|s| - 1])
    requires |r| <= |s| - 1 && s[..|s| - 1] == r + s[..|s| - 1][|r|..]
    requires AllWhitespace(s[..|s| - 1][|r|..])
    ensures s == r + s[|r|..]
    ensures AllWhitespace(s[|r|..])
  {
    var w := s[..|s| - 1][|r|..];
    assert s[|r|..] == w + [s[|s| - 1]];
    assert s == s[..|s| - 1] + [s[|s| - 1]];
    AllWhitespaceConcat(w, [s[|s| - 1]]);
  }

  /** Gluing the two halves of `trim`: the dropped prefix, the result and the
      dropped suffix rebuild `s`. */
  lemma TrimParts(s: string, t: string, r: string)
    requires |t| <= |s| && s == s[..|s| - |t|] + t && AllWhitespace(s[..|s| - |t|])
    requires |r| <= |t| && t == r + t[|r|..] && AllWhitespace(t[|r|..])
    requires t != [] ==> !IsJsWhitespace(t[0])
    ensures exists pre, post :: s == pre + r + post && AllWhitespace(pre) && AllWhitespace(post)
    ensures r != [] ==> !IsJsWhitespace(r[0])
    ensures r == [] <==> AllWhitespace(s)
  {
    var pre, post := s[..|s| - |t|], t[|r|..];
    assert s == pre + (r + post);
    assert s == pre + r + post;
    if r == [] {
      assert s == pre + post;
      AllWhitespaceConcat(pre, post);
    } else {
      assert t[0] == r[0];
      assert s[|pre|] == t[0];
    }
  }

  /** `s.trim()`: what is left of `s` once the whitespace at both ends is gone;
      it is empty exactly when `s` is all whitespace. */
  function Trim(s: string): (r: string)
    ensures exists pre, post :: s == pre + r + post && AllWhitespace(pre) && AllWhitespace(post)
    ensures r != [] ==> !IsJsWhitespace(r[0]) && !IsJsWhitespace(r[|r| - 1])
    ensures r == [] <==> AllWhitespace(s)
  {
    var t := TrimStart(s);
    var r := TrimEnd(t);
    TrimParts(s, t, r);
    r
  }

  /** `trimStart` drops exactly a whitespace prefix in front of a string that
      does not start with whitespace. */
  lemma {:induction false} TrimStartDropsLeading(pre: string, rest: string)
    requires AllWhitespace(pre) && (rest != [] ==> !IsJsWhitespace(rest[0]))
    ensures TrimStart(pre + rest) == rest
  {
    if pre == [] {
      assert pre + rest == rest;
    } else {
      assert (pre + rest)[0] == pre[0];
      assert (pre + rest)[1..] == pre[1..] + rest;
      TrimStartDropsLeading(pre[1..], rest);
    }
  }

  /** `trimEnd` drops exactly a whitespace suffix behind a string that does
      not end with whitespace. */
  lemma {:induction false} TrimEndDropsTrailing(rest: string, post: string)
    requires AllWhitespace(post) && (rest != [] ==> !IsJsWhitespace(rest[|rest| - 1]))
    ensures TrimEnd(rest + post) == rest
  {
    if post == [] {
      assert rest + post == rest;
    } else {
      var s := rest + post;
      assert s[|s| - 1] == post[|post| - 1];
      assert s[..|s| - 1] == rest + post[..|post| - 1];
      TrimEndDropsTrailing(rest, post[..|post| - 1]);
    }
  }

  /** The converse of `Trim`'s contract: whitespace around a string that
      neither starts nor ends with whitespace is exactly what `trim` removes. */
  lemma TrimOfPadded(pre: string, m: string, post: string)
    requires AllWhitespace(pre) && AllWhitespace(post)
    requires m != [] ==> !IsJsWhitespace(m[0]) && !IsJsWhitespace(m[|m| - 1])
    ensures Trim(pre + m + post) == m
  {
    if m == [] {
      assert pre + m + post == pre + post;
      AllWhitespaceConcat(pre, post);
    } else {
      assert pre + m + post == pre + (m + post);
      assert (m + post)[0] == m[0];
      TrimStartDropsLeading(pre, m + post);
      TrimEndDropsTrailing(m, post);
    }
  }

  // ---------------------------------------------------------------------------
  // `split` and `join`
  // ---------------------------------------------------------------------------

  /** `parts.join(sep)`. */
  function Join(parts: seq<string>, sep: char): (s: string)
    requires |parts| >= 1
  {
    if |parts| == 1 then parts[0] else parts[0] + [sep] + Join(parts[1..], sep)
  }

  /** `s.split(sep)`: the pieces between the separators, so "" gives [""] and
      "photo." gives ["photo", ""]. Joining them again gives back `s`. */
  function SplitOn(s: string, sep: char): (parts: seq<string>)
    ensures |parts| >= 1
    ensures forall i :: 0 <= i < |parts| ==> sep !in parts[i]
    ensures |parts| > 1 <==> sep in s
    ensures Join(parts, sep) == s
  {
    if s == [] then [""]
    else
      var rest := SplitOn(s[1..], sep);
      assert s == [s[0]] + s[1..];
      if s[0] == sep then
        assert ([""] + rest)[1..] == rest;
        [""] + rest
      else
        var parts := [[s[0]] + rest[0]] + rest[1..];
        assert parts[1..] == rest[1..];
        assert |rest| > 1 ==> Join(rest, sep) == rest[0] + [sep] + Join(rest[1..], sep);
        parts
  }

  lemma {:induction false} JoinSnoc(parts: seq<string>, last: string, sep: char)
    requires |parts| >= 1
    ensures Join(parts + [last], sep) == Join(parts, sep) + [sep] + last
    decreases |parts|
  {
    if |parts| > 1 {
      assert (parts + [last])[1..] == parts[1..] + [last];
      JoinSnoc(parts[1..], last, sep);
    }
  }

  // ---------------------------------------------------------------------------
  // The rename context and the new name
  // ---------------------------------------------------------------------------

  datatype NameParts = NameParts(base: string, ext: string)

  /** The split of `openRenameModal` (app.js:254-261): with a dot in the name,
      the last dot-separated part is the extension and the rest, joined with
      dots, is the base; without one, the base is the whole name. */
  function SplitName(name: string): (r: NameParts)
    ensures '.' in name ==> r.base + "." + r.ext == name && '.' !in r.ext
    ensures '.' !in name ==> r.base == name && r.ext == ""
  {
    var parts := SplitOn(name, '.');
    if |parts| > 1 then
      var n := |parts|;
      assert parts == parts[..n - 1] + [parts[n - 1]];
      JoinSnoc(parts[..n - 1], parts[n - 1], '.');
      NameParts(Join(parts[..n - 1], '.'), parts[n - 1])
    else
      NameParts(name, "")
  }

  /** `renameContext`: the file being renamed (its handle, known here by its
      name; null before any modal opened) and the split of its name. */
  datatype RenameContext = RenameContext(file: Option<string>, originalName: string, originalExtension: string)

  function ContextFor(name: string): (ctx: RenameContext) {
    RenameContext(Some(name), SplitName(name).base, SplitName(name).ext)
  }

  /** The `newName` of app.js:283-285: the extension is kept when it is not empty. */
  function NewName(newBase: string, ext: string): (r: string)
  {
    if ext != "" then newBase + "." + ext else newBase
  }

  lemma AppendCancels(a: string, b: string, suffix: string)
    ensures a + suffix == b + suffix ==> a == b
  {
    if a + suffix == b + suffix {
      assert a == (a + suffix)[..|a|];
      assert b == (b + suffix)[..|b|];
    }
  }

  /** A typed base that differs from the old base builds a name other than the
      old one, except when the old name ends in a dot and the typed base is the
      whole old name. */
  lemma NewNameDiffersUnlessTrailingDot(name: string, newBase: string)
    requires newBase != SplitName(name).base
    ensures NewName(newBase, SplitName(name).ext) == name <==>
      (|name| > 0 && name[|name| - 1] == '.' && newBase == name)
  {
    var p := SplitName(name);
    if '.' in name && p.ext != "" {
      assert name[|name| - 1] == p.ext[|p.ext| - 1];
      assert p.ext[|p.ext| - 1] in p.ext;
      var suffix := "." + p.ext;
      assert NewName(newBase, p.ext) == newBase + suffix;
      assert name == p.base + suffix;
      AppendCancels(newBase, p.base, suffix);
    }
  }

  /** What `saveRename` targets (app.js:277-285), as written: nothing when the
      trimmed input is empty or equals the old base, else the rebuilt name. */
  function RenameTarget(ctx: RenameContext, input: string): (target: Option<string>)
  {
    var newBase := Trim(input);
    if newBase == "" || newBase == ctx.originalName then None
    else Some(NewName(newBase, ctx.originalExtension))
  }

  /** For a file whose modal was opened: no target exactly when the input is
      all whitespace or trims to the old base; otherwise a target other than
      the old name, unless the old name ends in a dot and the input trims to it. */
  lemma RenameTargetOfOpenedFile(name: string, input: string)
    ensures RenameTarget(ContextFor(name), input).None? <==>
      AllWhitespace(input) || Trim(input) == SplitName(name).base
    ensures RenameTarget(ContextFor(name), input).Some? ==>
      (RenameTarget(ContextFor(name), input).value == name <==>
       |name| > 0 && name[|name| - 1] == '.' && Trim(input) == name)
  {
    var t := Trim(input);
    if t != "" && t != SplitName(name).base {
      NewNameDiffersUnlessTrailingDot(name, t);
      if NewName(t, SplitName(name).ext) == name {
        assert |name| > 0;
      }
    }
  }

  /** Every name the gallery shows ends in a dot and a letter extension, so
      its split has a non-empty extension and the name does not end in a dot. */
  lemma ImageNameHasExtension(name: string)
    requires IsImageName(name)
    ensures |name| > 0 && name[|name| - 1] != '.'
    ensures SplitName(name).ext != ""
  {
    var ext :| ext in ImageExtensions && EndsWithIgnoringCase(name, "." + ext);
    var suffix := "." + ext;
    var k := |name| - |suffix|;
    assert LowerAll(name[k..]) == suffix;
    assert LowerAscii(name[k]) == '.' by { assert LowerAll(name[k..])[0] == LowerAscii(name[k]); }
    FoldMatchesPatternCharacter(name[k], '.');
    assert '.' in name by { assert name[k] in name; }
    assert LowerAscii(name[|name| - 1]) == ext[|ext| - 1] by {
      assert LowerAll(name[k..])[|suffix| - 1] == LowerAscii(name[|name| - 1]);
    }
    assert ext[|ext| - 1] != '.';
    var p := SplitName(name);
    assert p.ext == "" ==> name == p.base + ".";
  }

  /** The rename modal opens only from a gallery thumbnail (app.js:214,
      app.js:243-245), so for every file it can open the target is never the
      old name: the self-copy of `TrailingDotRenameDeletesFile` is latent. */
  lemma ShownFileNeverTargetsItself(name: string, input: string)
    requires IsImageName(name)
    ensures RenameTarget(ContextFor(name), input) != Some(name)
  {
    ImageNameHasExtension(name);
    var t := Trim(input);
    if t != "" && t != SplitName(name).base {
      NewNameDiffersUnlessTrailingDot(name, t);
    }
  }

  // ---------------------------------------------------------------------------
  // Copy, then delete
  // ---------------------------------------------------------------------------

  /** The awaited steps of app.js:289-302: `getFile`, `getFileHandle` with
      `create`, `createWritable`/`write`/`close`, and `removeEntry`. */
  datatype Step = Read | Create | Write | Remove

  /** `Unchanged` is the early return of app.js:278-281; `Failed(step)` is the
      catch of app.js:308-311 reached from that step. */
  datatype RenameOutcome = Unchanged | Renamed | Failed(step: Step)

  /** The directory after the steps, when the step `failing` (if any) throws.
      Reading fails as well when there is no file handle or the file is gone.
      Creating makes an empty file unless the name is taken; the write replaces
      the target's bytes only when it completes. */
  function CopyThenDelete(dir: Directory, file: Option<string>, newName: string, failing: Option<Step>): (effect: (RenameOutcome, Directory))
  {
    if file.None? || file.value !in dir || failing == Some(Read) then (Failed(Read), dir)
    else if failing == Some(Create) then (Failed(Create), dir)
    else
      var created := if newName in dir then dir else dir[newName := []];
      if failing == Some(Write) then (Failed(Write), created)
      else
        var written := created[newName := dir[file.value]];
        if failing == Some(Remove) then (Failed(Remove), written)
        else (Renamed, written - {file.value})
  }

  /** The effect of `saveRename` as written. */
  function SaveRenameEffect(dir: Directory, ctx: RenameContext, input: string, failing: Option<Step>): (effect: (RenameOutcome, Directory))
  {
    match RenameTarget(ctx, input)
    case None => (Unchanged, dir)
    case Some(newName) => CopyThenDelete(dir, ctx.file, newName, failing)
  }

  /** On success the target holds the old bytes, the old name is gone and no
      other entry changed; success happens exactly when no step fails and the
      old file is there to read. */
  lemma RenameSucceeds(dir: Directory, oldName: string, newName: string, failing: Option<Step>)
    requires newName != oldName
    ensures var (outcome, after) := CopyThenDelete(dir, Some(oldName), newName, failing);
      && (outcome == Renamed <==> failing.None? && oldName in dir)
      && (outcome == Renamed ==>
            && newName in after && after[newName] == dir[oldName] && oldName !in after
            && forall n :: n != oldName && n != newName ==>
                 (n in after <==> n in dir) && (n in dir ==> after[n] == dir[n]))
  {
    if failing.Some? {
      assert failing.value.Read? || failing.value.Create? || failing.value.Write? || failing.value.Remove?;
    }
  }

  /** A failure before `removeEntry` leaves the oldName entry as it was; besides the
      target, which at most became an empty new file, nothing else changed. */
  lemma FailureBeforeRemoveKeepsOriginal(dir: Directory, oldName: string, newName: string, step: Step)
    requires step != Remove
    ensures var (outcome, after) := CopyThenDelete(dir, Some(oldName), newName, Some(step));
      && outcome.Failed? && outcome.step != Remove
      && (oldName in dir ==> oldName in after && after[oldName] == dir[oldName])
      && (forall n :: n != newName ==> (n in after <==> n in dir) && (n in dir ==> after[n] == dir[n]))
      && (newName in after ==> (newName in dir && after[newName] == dir[newName]) || after[newName] == [])
  {
  }

  /** A failure at `removeEntry` leaves both names holding the old bytes. */
  lemma FailureAtRemoveDuplicates(dir: Directory, oldName: string, newName: string)
    requires oldName in dir
    ensures var (outcome, after) := CopyThenDelete(dir, Some(oldName), newName, Some(Remove));
      && outcome == Failed(Remove)
      && oldName in after && newName in after
      && after[oldName] == dir[oldName] && after[newName] == dir[oldName]
  {
  }

  /** The trailing-dot case as written: with the old name "photo.", typing
      "photo." rewrites the file onto itself and then removes it, and the
      rename reports success. */
  lemma TrailingDotRenameDeletesFile(dir: Directory, name: string, pre: string, post: string)
    requires |name| > 0 && name[|name| - 1] == '.' && !IsJsWhitespace(name[0]) && name in dir
    requires AllWhitespace(pre) && AllWhitespace(post)
    ensures SaveRenameEffect(dir, ContextFor(name), pre + name + post, None) == (Renamed, dir - {name})
  {
    var input := pre + name + post;
    TrimOfPadded(pre, name, post);
    TrailingDotSplit(name);
    var ctx := ContextFor(name);
    assert RenameTarget(ctx, input) == Some(name);
    CopyOntoItself(dir, name);
  }

  /** A name ending in a dot has an empty extension and a shorter base. */
  lemma TrailingDotSplit(name: string)
    requires |name| > 0 && name[|name| - 1] == '.'
    ensures SplitName(name).ext == "" && SplitName(name).base != name
  {
    var p := SplitName(name);
    assert '.' in name by { assert name[|name| - 1] in name; }
    assert |p.base| < |name|;
  }

  /** Copying a file onto its own name and deleting the old name deletes the file. */
  lemma CopyOntoItself(dir: Directory, name: string)
    requires name in dir
    ensures CopyThenDelete(dir, Some(name), name, None) == (Renamed, dir - {name})
  {
    assert dir[name := dir[name]] == dir;
  }

  /** The corrected target: a target equal to the old name is no rename. */
  function GuardedRenameTarget(ctx: RenameContext, input: string): (target: Option<string>)
  {
    match RenameTarget(ctx, input)
    case None => None
    case Some(newName) => if ctx.file == Some(newName) then None else Some(newName)
  }

  function GuardedSaveRenameEffect(dir: Directory, ctx: RenameContext, input: string, failing: Option<Step>): (effect: (RenameOutcome, Directory))
  {
    match GuardedRenameTarget(ctx, input)
    case None => (Unchanged, dir)
    case Some(newName) => CopyThenDelete(dir, ctx.file, newName, failing)
  }

  /** Copying to another name keeps the bytes: under the new name after a
      success, under the old name after any failure. */
  lemma CopyToOtherNameKeepsBytes(dir: Directory, oldName: string, newName: string, failing: Option<Step>)
    requires oldName in dir && newName != oldName
    ensures var (outcome, after) := CopyThenDelete(dir, Some(oldName), newName, failing);
      && (outcome == Renamed ==> newName in after && after[newName] == dir[oldName] && oldName !in after)
      && (outcome != Renamed ==> oldName in after && after[oldName] == dir[oldName])
  {
  }

  /** With the guard the old file's bytes always survive: under the target name
      after a success, and under the old name after anything else. */
  lemma GuardedRenameKeepsBytes(dir: Directory, name: string, input: string, failing: Option<Step>)
    requires name in dir
    ensures var (outcome, after) := GuardedSaveRenameEffect(dir, ContextFor(name), input, failing);
      && (outcome == Renamed ==>
            exists newName :: newName != name && newName in after && after[newName] == dir[name] && name !in after)
      && (outcome != Renamed ==> name in after && after[name] == dir[name])
  {
    var ctx := ContextFor(name);
    match GuardedRenameTarget(ctx, input)
    case None =>
      assert GuardedSaveRenameEffect(dir, ctx, input, failing) == (Unchanged, dir);
    case Some(newName) =>
      assert newName != name;
      assert GuardedSaveRenameEffect(dir, ctx, input, failing) == CopyThenDelete(dir, Some(name), newName, failing);
      CopyToOtherNameKeepsBytes(dir, name, newName, failing);
  }

  // ---------------------------------------------------------------------------
  // The page's state
  // ---------------------------------------------------------------------------

  /** The folder the page works on and the rename context of app.js:19-23. */
  class AppState {
    var dir: Directory
    var renameContext: RenameContext

    constructor (dir: Directory)
      ensures this.dir == dir && renameContext == RenameContext(None, "", "")
    {
      this.dir := dir;
      renameContext := RenameContext(None, "", "");
    }

    /** `openRenameModal`: records the file and the split of its name. */
    method OpenRenameModal(fileName: string)
      modifies this`renameContext
      ensures renameContext == ContextFor(fileName)
      ensures '.' in fileName ==>
        renameContext.originalName + "." + renameContext.originalExtension == fileName
    {
      var nameParts := SplitOn(fileName, '.');
      if |nameParts| > 1 {
        var ext := nameParts[|nameParts| - 1];
        nameParts := nameParts[..|nameParts| - 1];
        renameContext := renameContext.(originalExtension := ext, originalName := Join(nameParts, '.'));
      } else {
        renameContext := renameContext.(originalName := fileName, originalExtension := "");
      }
      renameContext := renameContext.(file := Some(fileName));
    }

    /** The four steps of app.js:289-302 on the directory, stopping at the
        step that throws. */
    method CopyThenDeleteSteps(newName: string, failing: Option<Step>) returns (outcome: RenameOutcome)
      modifies this`dir
      ensures (outcome, dir) == CopyThenDelete(old(dir), renameContext.file, newName, failing)
    {
      // 1. read the old file
      if renameContext.file.None? || renameContext.file.value !in dir || failing == Some(Read) {
        return Failed(Read);
      }
      var oldName := renameContext.file.value;
      var oldFile := dir[oldName];
      // 2. create the new file
      if failing == Some(Create) {
        return Failed(Create);
      }
      if newName !in dir {
        dir := dir[newName := []];
      }
      // 3. write the old bytes to it
      if failing == Some(Write) {
        return Failed(Write);
      }
      dir := dir[newName := oldFile];
      // 4. remove the old file
      if failing == Some(Remove) {
        return Failed(Remove);
      }
      dir := dir - {oldName};
      outcome := Renamed;
    }

    /** `saveRename` as written. The rename context is left as it was. */
    method SaveRename(input: string, failing: Option<Step>) returns (outcome: RenameOutcome)
      modifies this`dir
      ensures (outcome, dir) == SaveRenameEffect(old(dir), renameContext, input, failing)
    {
      var newBaseName := Trim(input);
      if newBaseName == "" || newBaseName == renameContext.originalName {
        return Unchanged;
      }
      var newName := NewName(newBaseName, renameContext.originalExtension);
      outcome := CopyThenDeleteSteps(newName, failing);
    }

    /** `saveRename` with the guard against a target equal to the old name. */
    method SaveRenameGuarded(input: string, failing: Option<Step>) returns (outcome: RenameOutcome)
      modifies this`dir
      ensures (outcome, dir) == GuardedSaveRenameEffect(old(dir), renameContext, input, failing)
    {
      var target := RenameTarget(renameContext, input);
      if target.None? || renameContext.file == target {
        return Unchanged;
      }
      outcome := CopyThenDeleteSteps(target.value, failing);
    }
  }
}
