/** Language detection from a file's final extension. */
module Detector {
  import opened Wrappers
  import opened Paths

  datatype Language =
    | Python | TypeScript | Tsx | JavaScript | Jsx | Go | Rust | Java
    | C | Cpp | Ruby | Markdown | Swift | ObjC | Kotlin | CSharp

  /** `Language::as_str`: the lowercase language id written into each file map. */
  function LanguageId(l: Language): string
  {
    match l
    case Python => "python"
    case TypeScript => "typescript"
    case Tsx => "tsx"
    case JavaScript => "javascript"
    case Jsx => "jsx"
    case Go => "go"
    case Rust => "rust"
    case Java => "java"
    case C => "c"
    case Cpp => "cpp"
    case Ruby => "ruby"
    case Markdown => "markdown"
    case Swift => "swift"
    case ObjC => "objc"
    case Kotlin => "kotlin"
    case CSharp => "csharp"
  }

  /** No two languages share an id. */
  lemma LanguageIdInjective(a: Language, b: Language)
    ensures LanguageId(a) == LanguageId(b) ==> a == b
  {
  }

  /** The extension table of `detect`, one arm per language. */
  function LanguageOfExtension(ext: string): Option<Language>
  {
    match ext
    case "py" | "pyi" => Some(Python)
    case "ts" => Some(TypeScript)
    case "tsx" => Some(Tsx)
    case "js" | "mjs" | "cjs" => Some(JavaScript)
    case "jsx" => Some(Jsx)
    case "go" => Some(Go)
    case "rs" => Some(Rust)
    case "java" => Some(Java)
    case "c" | "h" => Some(C)
    case "cpp" | "cc" | "cxx" | "hpp" | "hxx" => Some(Cpp)
    case "rb" => Some(Ruby)
    case "md" | "markdown" => Some(Markdown)
    case "swift" => Some(Swift)
    case "m" | "mm" => Some(ObjC)
    case "kt" | "kts" => Some(Kotlin)
    case "cs" => Some(CSharp)
    case _ => None
  }

  /** `detect`: the language named by the path's final extension, if any. */
  function Detect(p: Path): (r: Option<Language>)
    ensures r.Some? ==> Extension(p).Some? && Extension(p).value in Extensions(r.value)
  {
    match Extension(p)
    case None => None
    case Some(ext) => LanguageOfExtension(ext)
  }

  /** The extensions each language claims, written as a table of sets. */
  function Extensions(l: Language): set<string>
  {
    match l
    case Python => {"py", "pyi"}
    case TypeScript => {"ts"}
    case Tsx => {"tsx"}
    case JavaScript => {"js", "mjs", "cjs"}
    case Jsx => {"jsx"}
    case Go => {"go"}
    case Rust => {"rs"}
    case Java => {"java"}
    case C => {"c", "h"}
    case Cpp => {"cpp", "cc", "cxx", "hpp", "hxx"}
    case Ruby => {"rb"}
    case Markdown => {"md", "markdown"}
    case Swift => {"swift"}
    case ObjC => {"m", "mm"}
    case Kotlin => {"kt", "kts"}
    case CSharp => {"cs"}
  }

  /** The match in `detect` and the table agree in both directions. */
  lemma ExtensionTableAgrees(ext: string, l: Language)
    ensures LanguageOfExtension(ext) == Some(l) <==> ext in Extensions(l)
  {
  }

  /** An extension that no language claims is not detected. */
  lemma UnlistedExtensionUndetected(ext: string)
    requires forall l: Language :: ext !in Extensions(l)
    ensures LanguageOfExtension(ext) == None
  {
    if LanguageOfExtension(ext).Some? {
      ExtensionTableAgrees(ext, LanguageOfExtension(ext).value);
    }
  }

  /** Detection looks at the final extension only: paths with equal extensions agree. */
  lemma DetectOnlySeesExtension(p: Path, q: Path)
    requires Extension(p) == Extension(q)
    ensures Detect(p) == Detect(q)
  {
  }

  /**
   * Every path whose file name ends in a claimed extension after a
   * non-leading dot is detected as the language claiming it (`foo.rs` is
   * Rust wherever it lies).
   */
  lemma DetectClaimedSuffix(p: Path, stem: string, ext: string, l: Language)
    requires |p| > 0 && p[|p| - 1] == stem + "." + ext && p[|p| - 1] != ".."
    requires |stem| > 0 && '.' !in ext
    requires ext in Extensions(l)
    ensures Detect(p) == Some(l)
  {
    ExtensionOfSuffix(p, stem, ext);
    ExtensionTableAgrees(ext, l);
  }

  /** A path without an extension is never detected. */
  lemma NoExtensionUndetected(p: Path)
    requires Extension(p).None?
    ensures Detect(p).None?
  {
  }

  /** Only the text after the last dot counts: `build.gradle.kts` is Kotlin. */
  lemma DetectGradleScript()
    ensures Detect(["build.gradle.kts"]) == Some(Kotlin)
  {
    assert LastDot("build.gradle.kts") == Some(12) by {
      assert "build.gradle.kts"[15] != '.' && "build.gradle.kts"[14] != '.' && "build.gradle.kts"[13] != '.';
      assert "build.gradle.kts"[..15] == "build.gradle.kt";
      assert "build.gradle.kt"[..14] == "build.gradle.k";
      assert "build.gradle.k"[..13] == "build.gradle.";
    }
    assert "build.gradle.kts"[13..] == "kts";
  }

  /** An extension outside the table is not detected. */
  lemma DetectPlainText()
    ensures Detect(["test.txt"]) == None
  {
    assert LastDot("test.txt") == Some(4) by {
      assert "test.txt"[..7] == "test.tx";
      assert "test.tx"[..6] == "test.t";
      assert "test.t"[..5] == "test.";
    }
    assert "test.txt"[5..] == "txt";
  }

  /** A file name without a dot is not detected. */
  lemma DetectNoDot()
    ensures Detect(["test"]) == None
  {
  }

  /** Directories before the file name play no part: `src/lib.rs` is Rust. */
  lemma DetectRustSource()
    ensures Detect(["src", "lib.rs"]) == Some(Rust)
  {
    assert LastDot("lib.rs") == Some(3) by {
      assert "lib.rs"[..5] == "lib.r";
      assert "lib.r"[..4] == "lib.";
    }
    assert "lib.rs"[4..] == "rs";
  }
}
