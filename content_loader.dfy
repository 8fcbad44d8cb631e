/**
 * The custom loader of the `articles` collection (src/content.config.ts): the
 * Markdown files under the article directory become entries whose uid comes
 * from the frontmatter or from the file's relative path, and whose legacy
 * `type` values are renamed. The directory walk and the file reads are not
 * modelled: the loader gets the files, in walk order, with their frontmatter
 * already parsed into string fields.
 */
module ContentLoader {
  import opened Wrappers

  /** A file found by the walk: its name, its path relative to the article directory, frontmatter and body. */
  datatype SourceFile = SourceFile(name: string, relativePath: string, data: map<string, string>, body: string)

  predicate EndsWith(s: string, suffix: string) {
    |suffix| <= |s| && s[|s| - |suffix|..] == suffix
  }

  /** `file.endsWith('.md') || file.endsWith('.mdx')`. */
  predicate IsMarkdown(name: string) {
    EndsWith(name, ".md") || EndsWith(name, ".mdx")
  }

  /** `replace(/\\/g, '/')`: every backslash becomes a slash. */
  function ToSlashes(s: string): (r: string)
    ensures |r| == |s| && '\\' !in r
    ensures forall i :: 0 <= i < |s| ==> r[i] == (if s[i] == '\\' then '/' else s[i])
  {
    seq(|s|, i requires 0 <= i < |s| => if s[i] == '\\' then '/' else s[i])
  }

  /** `replace(/\.(md|mdx)$/, '')`: drops one trailing `.md` or `.mdx`. */
  function StripMarkdownExtension(s: string): (r: string)
    ensures EndsWith(s, ".md") ==> r + ".md" == s
    ensures EndsWith(s, ".mdx") ==> r + ".mdx" == s
    ensures !IsMarkdown(s) ==> r == s
  {
    if EndsWith(s, ".md") then
      assert s[|s| - 1] == ".md"[2] != ".mdx"[3];
      assert s[..|s| - 3] + ".md" == s;
      s[..|s| - 3]
    else if EndsWith(s, ".mdx") then s[..|s| - 4]
    else s
  }

  /** `(data.uid as string) || relativePath...`: a non-empty frontmatter uid wins. */
  function Uid(file: SourceFile): (uid: string)
    ensures "uid" in file.data && file.data["uid"] != "" ==> uid == file.data["uid"]
    ensures !("uid" in file.data && file.data["uid"] != "") ==>
      uid == StripMarkdownExtension(ToSlashes(file.relativePath))
  {
    if "uid" in file.data && file.data["uid"] != "" then file.data["uid"]
    else StripMarkdownExtension(ToSlashes(file.relativePath))
  }

  /** A uid built from a path holds no backslash, and adding the extension back gives the path with slashes. */
  lemma DerivedUidShape(file: SourceFile)
    requires !("uid" in file.data && file.data["uid"] != "")
    requires IsMarkdown(file.relativePath)
    ensures '\\' !in Uid(file)
    ensures Uid(file) + ".md" == ToSlashes(file.relativePath) || Uid(file) + ".mdx" == ToSlashes(file.relativePath)
  {
    var p := file.relativePath;
    var slashed := ToSlashes(p);
    var uid := Uid(file);
    assert EndsWith(slashed, ".md") || EndsWith(slashed, ".mdx") by {
      if EndsWith(p, ".md") {
        assert slashed[|slashed| - 3..] == p[|p| - 3..];
      } else {
        assert slashed[|slashed| - 4..] == p[|p| - 4..];
      }
    }
    assert uid == slashed[..|uid|];
    forall i | 0 <= i < |uid|
      ensures uid[i] != '\\'
    {
      assert uid[i] == slashed[i];
    }
  }

  /** The legacy `typeMap`: page → document, article → letter, graphics → poster. */
  function MapType(t: string): (r: string)
    ensures t == "page" ==> r == "document"
    ensures t == "article" ==> r == "letter"
    ensures t == "graphics" ==> r == "poster"
    ensures t !in {"page", "article", "graphics"} ==> r == t
  {
    if t == "page" then "document"
    else if t == "article" then "letter"
    else if t == "graphics" then "poster"
    else t
  }

  /** Mapping twice is mapping once, and no legacy name survives. */
  lemma MapTypeIdempotent(t: string)
    ensures MapType(MapType(t)) == MapType(t)
    ensures MapType(t) !in {"page", "article", "graphics"}
  {
  }

  /** An entry: `{ id: uid, ...data, type: contentType, uid, body }`. */
  datatype Entry = Entry(id: string, kind: Option<string>, uid: string, body: string, data: map<string, string>)

  /**
   * The entry built for a Markdown file. The spread puts the frontmatter after
   * `id`, so a frontmatter `id` wins over the uid; `type`, `uid` and `body`
   * come after it and win over the frontmatter's.
   */
  function MakeEntry(file: SourceFile): (e: Entry)
    ensures e.uid == Uid(file) && e.body == file.body && e.data == file.data
    ensures e.id == (if "id" in file.data then file.data["id"] else Uid(file))
    ensures "type" in file.data <==> e.kind.Some?
    ensures e.kind.Some? ==> e.kind.value == MapType(file.data["type"])
  {
    var uid := Uid(file);
    var kind := if "type" in file.data then Some(MapType(file.data["type"])) else None;
    Entry(if "id" in file.data then file.data["id"] else uid, kind, uid, file.body, file.data)
  }

  /** The Markdown files among `files`, in order. */
  function MarkdownFiles(files: seq<SourceFile>): (r: seq<SourceFile>)
    ensures forall f :: f in r ==> IsMarkdown(f.name)
    ensures forall f :: f in files && IsMarkdown(f.name) ==> f in r
    ensures |r| <= |files|
  {
    if files == [] then []
    else (if IsMarkdown(files[0].name) then [files[0]] else []) + MarkdownFiles(files[1..])
  }

  /** Every Markdown file is kept as many times as it occurs, and no other file is kept. */
  lemma {:induction false} MarkdownFilesCount(files: seq<SourceFile>, f: SourceFile)
    ensures multiset(MarkdownFiles(files))[f] == if IsMarkdown(f.name) then multiset(files)[f] else 0
  {
    if files != [] {
      assert files == [files[0]] + files[1..];
      MarkdownFilesCount(files[1..], f);
    }
  }

  /** The Markdown files form a sub-multiset of the walked files. */
  lemma MarkdownFilesSubMultiset(files: seq<SourceFile>)
    ensures multiset(MarkdownFiles(files)) <= multiset(files)
  {
    forall f | f in multiset(MarkdownFiles(files))
      ensures multiset(MarkdownFiles(files))[f] <= multiset(files)[f]
    {
      MarkdownFilesCount(files, f);
    }
  }

  lemma MarkdownFilesAppend(files: seq<SourceFile>, f: SourceFile)
    ensures MarkdownFiles(files + [f]) == MarkdownFiles(files) + (if IsMarkdown(f.name) then [f] else [])
  {
    if files != [] {
      assert (files + [f])[1..] == files[1..] + [f];
      MarkdownFilesAppend(files[1..], f);
    } else {
      assert [f][1..] == [];
    }
  }

  /**
   * The loop over the walked files: each `.md` or `.mdx` file pushes its
   * entry, every other file is skipped.
   */
  method Load(files: seq<SourceFile>) returns (entries: seq<Entry>)
    ensures |entries| == |MarkdownFiles(files)|
    ensures forall i :: 0 <= i < |entries| ==> entries[i] == MakeEntry(MarkdownFiles(files)[i])
    ensures forall i :: 0 <= i < |entries| && entries[i].kind.Some? ==>
      entries[i].kind.value !in {"page", "article", "graphics"}
  {
    entries := [];
    var k := 0;
    while k < |files|
      invariant 0 <= k <= |files|
      invariant |entries| == |MarkdownFiles(files[..k])|
      invariant forall i :: 0 <= i < |entries| ==> entries[i] == MakeEntry(MarkdownFiles(files[..k])[i])
    {
      MarkdownFilesAppend(files[..k], files[k]);
      assert files[..k + 1] == files[..k] + [files[k]];
      if IsMarkdown(files[k].name) {
        entries := entries + [MakeEntry(files[k])];
      }
      k := k + 1;
    }
    assert files[..k] == files;
    forall i | 0 <= i < |entries| && entries[i].kind.Some?
      ensures entries[i].kind.value !in {"page", "article", "graphics"}
    {
      MapTypeIdempotent(MarkdownFiles(files)[i].data["type"]);
    }
  }
}
