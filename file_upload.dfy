/**
 * Choosing the editor language for a dropped file
 * (frontend/src/components/FileUpload.jsx): the extension table and the
 * extension taken from the file name.  Reading the file's text is I/O and
 * its content arrives here as a value.
 */
module FileUpload {
  import opened Wrappers
  import Text

  /** `languageMap`: file extension to editor language id. */
  const LanguageMap: map<string, string> := map[
    "js" := "javascript",
    "jsx" := "javascript",
    "ts" := "typescript",
    "tsx" := "typescript",
    "py" := "python",
    "java" := "java",
    "cpp" := "cpp",
    "c" := "c",
    "cs" := "csharp",
    "go" := "go",
    "rs" := "rust",
    "php" := "php",
    "rb" := "ruby",
    "swift" := "swift",
    "kt" := "kotlin",
    "sql" := "sql",
    "html" := "html",
    "css" := "css"
  ]

  const DefaultLanguage: string := "javascript"

  /** The language ids the table can produce. */
  const Languages: set<string> := {
    "javascript", "typescript", "python", "java", "cpp", "c", "csharp", "go",
    "rust", "php", "ruby", "swift", "kotlin", "sql", "html", "css"
  }

  /** Extensions whose language id is spelled differently from the extension. */
  const Aliases: set<string> := {"js", "jsx", "ts", "tsx", "py", "cs", "rs", "rb", "kt"}

  /** A dropped file: its name and its text. */
  datatype DroppedFile = DroppedFile(name: string, content: string)

  /** What `onFileLoad` receives: the content, the detected language and the file name. */
  datatype Loaded = Loaded(content: string, language: string, name: string)

  function Last(pieces: seq<string>): string
    requires |pieces| >= 1
  {
    pieces[|pieces| - 1]
  }

  /** `name.split('.').pop().toLowerCase()`. */
  function Extension(name: string): string
  {
    Text.Lower(Last(Text.Split(name, '.')))
  }

  /** `languageMap[extension] || 'javascript'`. */
  function LanguageOf(extension: string): string
  {
    if extension in LanguageMap then LanguageMap[extension] else DefaultLanguage
  }

  function DetectLanguage(name: string): string
  {
    LanguageOf(Extension(name))
  }

  /** The text after the last '.', the whole name when there is none. */
  function AfterLastDot(name: string): string
  {
    if '.' in name then name[Text.LastIndexOf(name, '.') + 1..] else name
  }

  /** The last occurrence in a suffix that has one is the last occurrence in the whole. */
  lemma LastIndexOfInSuffix(s: string, sep: char, start: nat)
    requires start <= |s| && sep in s[start..]
    ensures sep in s && Text.LastIndexOf(s, sep) == start + Text.LastIndexOf(s[start..], sep)
  {
    var rest := s[start..];
    var l := Text.LastIndexOf(rest, sep);
    assert s[start + l] == sep;
    Text.LastIndexOfIsLast(s, sep, start + l);
    var m := Text.LastIndexOf(s, sep);
    assert rest[m - start] == sep;
    Text.LastIndexOfIsLast(rest, sep, m - start);
  }

  /** `split(sep).pop()` is the text after the last separator, or the whole string. */
  lemma LastPiece(s: string, sep: char)
    ensures sep !in s ==> Last(Text.Split(s, sep)) == s
    ensures sep in s ==> Last(Text.Split(s, sep)) == s[Text.LastIndexOf(s, sep) + 1..]
  {
    LastPieceOf(s, sep, Text.Split(s, sep));
  }

  /** `LastPiece` for the pieces of `s`, by induction on `s`. */
  lemma {:induction false} LastPieceOf(s: string, sep: char, pieces: seq<string>)
    requires pieces == Text.Split(s, sep)
    ensures sep !in s ==> Last(pieces) == s
    ensures sep in s ==> Last(pieces) == s[Text.LastIndexOf(s, sep) + 1..]
    decreases |s|
  {
    if sep !in s {
      Text.SplitNone(s, sep);
    } else {
      var i := Text.IndexOf(s, sep);
      var rest := s[i + 1..];
      Text.SplitUnfold(s, sep);
      LastOfCons(s[..i], Text.Split(rest, sep));
      LastPieceOf(rest, sep, Text.Split(rest, sep));
      if sep in rest {
        LastIndexOfInSuffix(s, sep, i + 1);
        SliceOfSlice(s, i + 1, Text.LastIndexOf(rest, sep) + 1);
      } else {
        LastIndexOfIsFinal(s, sep, i);
      }
    }
  }

  /** The last of several pieces is the last of all but the first. */
  lemma LastOfCons(head: string, tail: seq<string>)
    requires |tail| >= 1
    ensures Last([head] + tail) == Last(tail)
  {
  }

  lemma SliceOfSlice(s: string, a: nat, b: nat)
    requires a <= |s| && b <= |s| - a
    ensures s[a..][b..] == s[a + b..]
  {
  }

  /** An occurrence with none after it is the last one. */
  lemma LastIndexOfIsFinal(s: string, sep: char, i: nat)
    requires i < |s| && s[i] == sep && sep !in s[i + 1..]
    ensures Text.LastIndexOf(s, sep) == i
  {
    Text.LastIndexOfIsLast(s, sep, i);
    assert forall q :: i < q < |s| ==> s[q] == s[i + 1..][q - i - 1];
  }

  /** The extension is the lower-cased text after the last '.', or the whole lower-cased name. */
  lemma ExtensionAfterLastDot(name: string)
    ensures Extension(name) == Text.Lower(AfterLastDot(name))
  {
    LastPiece(name, '.');
    assert Last(Text.Split(name, '.')) == AfterLastDot(name);
  }

  /** Lower-casing leaves the dots where they are. */
  lemma LowerKeepsDots(name: string)
    ensures '.' in Text.Lower(name) <==> '.' in name
    ensures '.' in name ==> Text.LastIndexOf(Text.Lower(name), '.') == Text.LastIndexOf(name, '.')
  {
    var low := Text.Lower(name);
    assert forall i :: 0 <= i < |name| ==> (low[i] == '.' <==> name[i] == '.');
    if '.' in name {
      var j := Text.LastIndexOf(name, '.');
      assert low[j] == '.';
      var k := Text.LastIndexOf(low, '.');
      Text.LastIndexOfIsLast(low, '.', j);
      Text.LastIndexOfIsLast(name, '.', k);
    } else {
      forall i | 0 <= i < |low| ensures low[i] != '.' {
      }
    }
  }

  /** Lower-casing commutes with taking the text after the last '.'. */
  lemma AfterLastDotLower(name: string)
    ensures AfterLastDot(Text.Lower(name)) == Text.Lower(AfterLastDot(name))
  {
    LowerKeepsDots(name);
    var low := Text.Lower(name);
    if '.' in name {
      var j := Text.LastIndexOf(name, '.');
      assert AfterLastDot(low) == low[j + 1..];
      LowerSuffix(name, j + 1);
    }
  }

  /** Lower-casing commutes with dropping a prefix. */
  lemma LowerSuffix(s: string, k: nat)
    requires k <= |s|
    ensures Text.Lower(s)[k..] == Text.Lower(s[k..])
  {
    var l, r := Text.Lower(s)[k..], Text.Lower(s[k..]);
    assert |l| == |r|;
    forall i | 0 <= i < |l| ensures l[i] == r[i] {
      assert l[i] == Text.LowerChar(s[k + i]);
    }
  }

  /** The detected language does not depend on letter case: "MAIN.PY" reads as "main.py". */
  lemma DetectLanguageIgnoresCase(name: string)
    ensures DetectLanguage(Text.Lower(name)) == DetectLanguage(name)
  {
    ExtensionAfterLastDot(name);
    ExtensionAfterLastDot(Text.Lower(name));
    AfterLastDotLower(name);
    Text.LowerIdempotent(AfterLastDot(name));
  }

  /** Whatever the name, the result is one of the sixteen language ids. */
  lemma DetectLanguageKnown(name: string)
    ensures DetectLanguage(name) in Languages
  {
    var e := Extension(name);
    if e in LanguageMap {
      assert e in Aliases || e in {"java", "cpp", "c", "go", "php", "swift", "sql", "html", "css"};
    }
  }

  /**
   * The table maps js and jsx to javascript, ts and tsx to typescript, py
   * to python, cs to csharp, rs to rust, rb to ruby and kt to kotlin; every
   * other listed extension is its own language id, and anything unlisted
   * falls back to javascript.
   */
  lemma LanguageOfTable(extension: string)
    ensures extension in LanguageMap && extension !in Aliases ==> LanguageOf(extension) == extension
    ensures extension !in LanguageMap ==> LanguageOf(extension) == DefaultLanguage
    ensures LanguageOf("js") == "javascript" && LanguageOf("jsx") == "javascript"
    ensures LanguageOf("ts") == "typescript" && LanguageOf("tsx") == "typescript"
    ensures LanguageOf("py") == "python" && LanguageOf("cs") == "csharp" && LanguageOf("rs") == "rust"
    ensures LanguageOf("rb") == "ruby" && LanguageOf("kt") == "kotlin"
  {
  }

  /** `onDrop`: only the first accepted file is loaded; an empty drop loads nothing. */
  function OnDrop(files: seq<DroppedFile>): (r: Option<Loaded>)
    ensures r.None? <==> files == []
    ensures r.Some? ==> r.value.name == files[0].name && r.value.content == files[0].content
    ensures r.Some? ==> r.value.language == DetectLanguage(files[0].name) && r.value.language in Languages
  {
    if files == [] then None
    else
      DetectLanguageKnown(files[0].name);
      Some(Loaded(files[0].content, DetectLanguage(files[0].name), files[0].name))
  }

  /** Files after the first one are ignored. */
  lemma OnDropFirstOnly(files: seq<DroppedFile>, more: seq<DroppedFile>)
    requires files != []
    ensures OnDrop(files + more) == OnDrop(files[..1])
  {
    assert (files + more)[0] == files[..1][0];
  }
}
