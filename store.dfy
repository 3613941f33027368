/**
 * The flat-file entry store of daily.py (`FsDriver`): one text file
 * `<date>.txt` per date in the entries directory, one entry per line, and the
 * `Result` record the journal hands back to its caller.
 *
 * The directory is a map from file name to file text. Reading a file is
 * `readlines()`: the text split after every '\n', terminators kept.
 */
module Store {

  /** `DEFAULT_EXTENSION.lstrip('.')`. */
  const Extension: string := "txt"

  /** `_get_filename`: the name of the entries file of a date, relative to the
      entries directory. */
  function FileName(d: string): string {
    d + "." + Extension
  }

  /** Different dates never share an entries file. */
  lemma FileNameInjective(a: string, b: string)
    ensures FileName(a) == FileName(b) <==> a == b
  {
    assert a == FileName(a)[..|FileName(a)| - 4];
    assert b == FileName(b)[..|FileName(b)| - 4];
  }

  /** The date has an entries file. */
  predicate Has(files: map<string, string>, d: string) {
    FileName(d) in files
  }

  /** The text of the date's entries file, or nothing when it has none. */
  function TextOf(files: map<string, string>, d: string): string {
    if Has(files, d) then files[FileName(d)] else ""
  }

  // ---------------------------------------------------------------------
  // readlines()
  // ---------------------------------------------------------------------

  /** No '\n' before the last character. */
  predicate NoInnerBreak(s: string) {
    forall k :: 0 <= k < |s| - 1 ==> s[k] != '\n'
  }

  /** One entry as written: some text and then a single '\n' that ends it. */
  predicate IsLine(s: string) {
    |s| > 0 && s[|s| - 1] == '\n' && NoInnerBreak(s)
  }

  /** Text that is empty or ends with a line terminator. */
  predicate WellTerminated(t: string) {
    t == [] || t[|t| - 1] == '\n'
  }

  /** The length of the first line of `t`, its '\n' included. */
  function LineLength(t: string): (k: nat)
    requires t != []
    ensures 1 <= k <= |t|
    ensures forall i :: 0 <= i < k - 1 ==> t[i] != '\n'
    ensures t[k - 1] == '\n' || k == |t|
    decreases |t|
  {
    if t[0] == '\n' || |t| == 1 then 1 else 1 + LineLength(t[1..])
  }

  /** `readlines()`: the lines of `t`, each with its terminator. */
  function Lines(t: string): (r: seq<string>)
    ensures forall k :: 0 <= k < |r| ==> r[k] != [] && NoInnerBreak(r[k])
    ensures forall k :: 0 <= k < |r| - 1 ==> IsLine(r[k])
    ensures WellTerminated(t) ==> forall k :: 0 <= k < |r| ==> IsLine(r[k])
    decreases |t|
  {
    if t == [] then []
    else
      var k := LineLength(t);
      assert WellTerminated(t) ==> t[k - 1] == '\n';
      assert WellTerminated(t) ==> WellTerminated(t[k..]);
      [t[..k]] + Lines(t[k..])
  }

  function Concat(ls: seq<string>): string {
    if ls == [] then [] else ls[0] + Concat(ls[1..])
  }

  /** Joining the lines gives back the whole text: no character is lost. */
  lemma {:induction false} LinesConcat(t: string)
    ensures Concat(Lines(t)) == t
    decreases |t|
  {
    if t != [] {
      var k := LineLength(t);
      LinesConcat(t[k..]);
      assert Lines(t)[1..] == Lines(t[k..]);
      assert t == t[..k] + t[k..];
    }
  }

  /** Appending text after a line that ends with '\n' leaves the first line alone. */
  lemma {:induction false} LineLengthOfExtension(t: string, u: string)
    requires t != [] && t[LineLength(t) - 1] == '\n'
    ensures LineLength(t + u) == LineLength(t)
    decreases |t|
  {
    if t[0] != '\n' {
      assert (t + u)[1..] == t[1..] + u;
      LineLengthOfExtension(t[1..], u);
    }
  }

  /** A single terminated line reads back as itself. */
  lemma SingleLine(s: string)
    requires IsLine(s)
    ensures Lines(s) == [s]
  {
    var k := LineLength(s);
    assert k == |s|;
    assert s[..k] == s && s[k..] == [];
  }

  /** `readlines()` takes the first line off and reads the rest. */
  lemma LinesUnfold(t: string)
    requires t != []
    ensures Lines(t) == [t[..LineLength(t)]] + Lines(t[LineLength(t)..])
  {
  }

  lemma SlicesOfAppend(t: string, s: string, k: int)
    requires 0 <= k <= |t|
    ensures (t + s)[..k] == t[..k] && (t + s)[k..] == t[k..] + s
  {
  }

  /** Appending one terminated line to well-terminated text adds exactly that
      line at the end of what `readlines()` returns. */
  lemma {:induction false} AppendLine(t: string, s: string)
    requires WellTerminated(t) && IsLine(s)
    ensures Lines(t + s) == Lines(t) + [s]
    decreases |t|
  {
    if t == [] {
      assert t + s == s;
      SingleLine(s);
    } else {
      var k := LineLength(t);
      assert t[k - 1] == '\n';
      LineLengthOfExtension(t, s);
      var rest := t[k..];
      SlicesOfAppend(t, s, k);
      LinesUnfold(t + s);
      LinesUnfold(t);
      assert WellTerminated(rest);
      AppendLine(rest, s);
    }
  }

  /** Writing the same entry twice stores it twice. */
  lemma AppendSameLineTwice(t: string, s: string)
    requires WellTerminated(t) && IsLine(s)
    ensures Lines(t + s + s) == Lines(t) + [s, s]
  {
    AppendLine(t, s);
    AppendLine(t + s, s);
  }

  /** Appending to a file whose last line has no terminator (possible after
      an edit) glues the new text onto that last line instead of adding one. */
  lemma {:induction false} AppendToUnterminated(t: string, s: string)
    requires t != [] && !WellTerminated(t) && IsLine(s)
    ensures |Lines(t + s)| == |Lines(t)|
    ensures Lines(t + s)[..|Lines(t)| - 1] == Lines(t)[..|Lines(t)| - 1]
    ensures Lines(t + s)[|Lines(t)| - 1] == Lines(t)[|Lines(t)| - 1] + s
    decreases |t|
  {
    var k := LineLength(t);
    if k < |t| {
      assert t[k - 1] == '\n';
      LineLengthOfExtension(t, s);
      SlicesOfAppend(t, s, k);
      LinesUnfold(t + s);
      LinesUnfold(t);
      var rest := t[k..];
      assert rest[|rest| - 1] == t[|t| - 1];
      AppendToUnterminated(rest, s);
      LinesUnfold(rest);
      LastOfCons(t[..k], Lines(rest + s), Lines(rest), s);
    } else {
      assert forall i :: 0 <= i < |t| ==> t[i] != '\n';
      LineLengthOfUnterminated(t, s);
      assert (t + s)[..|t + s|] == t + s;
      assert t[..k] == t;
    }
  }

  lemma LastOfCons(a: string, after: seq<string>, before: seq<string>, s: string)
    requires |after| == |before| > 0 && after[|before| - 1] == before[|before| - 1] + s
    requires after[..|before| - 1] == before[..|before| - 1]
    ensures |[a] + after| == |[a] + before|
    ensures ([a] + after)[..|[a] + before| - 1] == ([a] + before)[..|[a] + before| - 1]
    ensures ([a] + after)[|[a] + before| - 1] == ([a] + before)[|[a] + before| - 1] + s
  {
    assert ([a] + after)[..|[a] + before| - 1] == [a] + after[..|before| - 1];
    assert ([a] + before)[..|[a] + before| - 1] == [a] + before[..|before| - 1];
  }

  lemma {:induction false} LineLengthOfUnterminated(t: string, s: string)
    requires t != [] && IsLine(s)
    requires forall i :: 0 <= i < |t| ==> t[i] != '\n'
    ensures LineLength(t + s) == |t + s|
    decreases |t|
  {
    if |t| > 1 {
      assert (t + s)[1..] == t[1..] + s;
      LineLengthOfUnterminated(t[1..], s);
    } else {
      assert (t + s)[1..] == s;
      var k := LineLength(s);
      assert k == |s|;
    }
  }

  /** `get_entry` of the store: the lines of the date's file, or none. */
  function Items(files: map<string, string>, d: string): (r: seq<string>)
    ensures Concat(r) == TextOf(files, d)
  {
    if Has(files, d) then LinesConcat(files[FileName(d)]); Lines(files[FileName(d)]) else []
  }

  // ---------------------------------------------------------------------
  // Result
  // ---------------------------------------------------------------------

  /** The `Result` record: the lines shown, the warnings, and the date the
      lines belong to (`""` when none). */
  datatype Result = Result(items: seq<string>, warnings: seq<string>, dailyDate: string)

  const EmptyResult: Result := Result([], [], "")

  function NoEntryWarning(d: string): string {
    "No entry for " + d
  }

  function DeletedWarning(d: string): string {
    "Deleted entries file " + d + " because it was empty"
  }

  // ---------------------------------------------------------------------
  // FsDriver
  // ---------------------------------------------------------------------

  class FsDriver {
    /** `os.linesep`, written after every entry. */
    const linesep: string
    /** The entries directory: file name to file text. */
    var files: map<string, string>

    /** Opens the entries directory with whatever files it already holds. */
    constructor (linesep: string, existing: map<string, string>)
      ensures this.linesep == linesep && files == existing
    {
      this.linesep := linesep;
      files := existing;
    }

    method HasEntry(d: string) returns (b: bool)
      ensures b <==> FileName(d) in files
    {
      b := FileName(d) in files;
    }

    /** Removes the date's file; tells whether there was one. */
    method NukeEntries(d: string) returns (removed: bool)
      modifies this
      ensures removed == old(Has(files, d))
      ensures files == old(files) - {FileName(d)}
      ensures !Has(files, d)
      ensures forall e :: e != d ==> Items(files, e) == old(Items(files, e))
    {
      removed := HasEntry(d);
      if removed {
        files := files - {FileName(d)};
      }
      forall e | e != d ensures FileName(e) != FileName(d) {
        FileNameInjective(e, d);
      }
    }

    /** The whole-file edit: `edited` is what the external editor left in the
        file. An edited file that is empty is removed. */
    method EditEntry(d: string, edited: string) returns (r: Result)
      modifies this
      ensures !old(Has(files, d)) ==> files == old(files) && r == Result([], [NoEntryWarning(d)], "")
      ensures old(Has(files, d)) && edited == "" ==>
                files == old(files) - {FileName(d)} && r == Result([], [DeletedWarning(d)], "")
      ensures old(Has(files, d)) && edited != "" ==>
                files == old(files)[FileName(d) := edited] && r == EmptyResult
      ensures old(Has(files, d)) ==> (Has(files, d) <==> edited != "")
    {
      r := EmptyResult;
      var present := HasEntry(d);
      if !present {
        r := r.(warnings := r.warnings + [NoEntryWarning(d)]);
      } else {
        files := files[FileName(d) := edited];
        if |files[FileName(d)]| == 0 {
          var _ := NukeEntries(d);
          r := r.(warnings := r.warnings + [DeletedWarning(d)]);
        }
      }
    }

    /** The lines of the date's file; none when it has no file. */
    method GetEntry(d: string) returns (lines: seq<string>)
      ensures lines == Items(files, d)
      ensures !Has(files, d) ==> lines == []
    {
      var present := HasEntry(d);
      if !present {
        return [];
      }
      lines := Lines(files[FileName(d)]);
    }

    /** Appends `content` and the line separator to the date's file, creating
        the file when the date has none. */
    method AddEntry(d: string, content: string)
      modifies this
      ensures files == old(files)[FileName(d) := old(TextOf(files, d)) + content + linesep]
      ensures Has(files, d)
      ensures IsLine(content + linesep) && old(WellTerminated(TextOf(files, d))) ==>
                Items(files, d) == old(Items(files, d)) + [content + linesep]
      ensures forall e :: e != d ==> Items(files, e) == old(Items(files, e))
    {
      var present := HasEntry(d);
      var existing := if present then files[FileName(d)] else "";
      files := files[FileName(d) := existing + content + linesep];
      if IsLine(content + linesep) && WellTerminated(existing) {
        assert existing + content + linesep == existing + (content + linesep);
        AppendLine(existing, content + linesep);
      }
      forall e | e != d ensures FileName(e) != FileName(d) {
        FileNameInjective(e, d);
      }
    }
  }
}
