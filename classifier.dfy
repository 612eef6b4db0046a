/** The extension classifier: the fixed category table and the first-match
    lookup that maps a file extension to a category name. */
module Classifier {

  /** One row of the category table: a category name and its extensions,
      each lower-case and starting with a dot. */
  datatype Category = Category(name: string, extensions: seq<string>)

  /** The category returned when no row lists the extension. */
  const Fallback: string := "Other"

  const ImageExts: seq<string> := [".jpg", ".jpeg", ".png", ".gif", ".bmp", ".tiff", ".webp"]
  const DocumentExts: seq<string> := [".pdf", ".docx", ".doc", ".txt", ".xlsx", ".xls", ".pptx", ".ppt", ".odt", ".rtf", ".md"]
  const AudioExts: seq<string> := [".mp3", ".wav", ".aac", ".flac", ".ogg", ".m4a"]
  const VideoExts: seq<string> := [".mp4", ".mov", ".avi", ".mkv", ".flv", ".wmv", ".webm"]
  const ArchiveExts: seq<string> := [".zip", ".rar", ".7z", ".tar", ".gz", ".bz2", ".iso"]
  const ExecutableExts: seq<string> := [".exe", ".msi", ".dmg", ".app", ".bat", ".sh"]
  const CodeExts: seq<string> := [".py", ".js", ".html", ".css", ".java", ".c", ".cpp", ".h", ".cs", ".go", ".rb", ".php", ".json", ".xml", ".yml", ".yaml"]

  /** The table in declaration order; the order decides which row wins. */
  const Categories: seq<Category> := [
    Category("Images", ImageExts),
    Category("Documents", DocumentExts),
    Category("Audio", AudioExts),
    Category("Video", VideoExts),
    Category("Archives", ArchiveExts),
    Category("Executables", ExecutableExts),
    Category("Code", CodeExts)
  ]

  /** The table's names in order followed by the fallback: the folders a run
      provisions and the keys of its count map. */
  const CategoryNames: seq<string> := ["Images", "Documents", "Audio", "Video", "Archives", "Executables", "Code", Fallback]

  /** CategoryNames is the list of the table's keys with the fallback appended. */
  lemma CategoryNamesFollowTable()
    ensures |CategoryNames| == |Categories| + 1
    ensures forall i :: 0 <= i < |Categories| ==> CategoryNames[i] == Categories[i].name
    ensures CategoryNames[|Categories|] == Fallback
  {
  }

  /** ASCII lower-casing of one character. */
  function LowerChar(c: char): char
  {
    if 'A' <= c <= 'Z' then (c as int + 32) as char else c
  }

  /** ASCII lower-casing of a string, character by character. */
  function Lower(s: string): string
  {
    seq(|s|, i requires 0 <= i < |s| => LowerChar(s[i]))
  }

  /** No character of `s` is an upper-case ASCII letter. */
  predicate IsLower(s: string)
  {
    forall i :: 0 <= i < |s| ==> !('A' <= s[i] <= 'Z')
  }

  lemma LowerIsLower(s: string)
    ensures IsLower(Lower(s))
    ensures |Lower(s)| == |s|
  {
  }

  /** A string without upper-case letters is its own lower-case form. */
  lemma LowerOfLower(s: string)
    requires IsLower(s)
    ensures Lower(s) == s
  {
  }

  /** Row `i` lists `ext` and no earlier row does. */
  ghost predicate IsFirstMatch(table: seq<Category>, ext: string, i: int)
  {
    && 0 <= i < |table|
    && ext in table[i].extensions
    && forall j :: 0 <= j < i ==> ext !in table[j].extensions
  }

  /** The linear scan over the table with early return. ScanFirstMatch
      states what it returns. */
  function Scan(table: seq<Category>, ext: string): string
  {
    if |table| == 0 then Fallback
    else if ext in table[0].extensions then table[0].name
    else Scan(table[1..], ext)
  }

  /** The scan returns the fallback exactly when no row lists `ext`, and
      otherwise the name of the first row that does. */
  lemma {:induction false} ScanFirstMatch(table: seq<Category>, ext: string)
    requires forall i :: 0 <= i < |table| ==> table[i].name != Fallback
    ensures Scan(table, ext) == Fallback <==> forall i :: 0 <= i < |table| ==> ext !in table[i].extensions
    ensures Scan(table, ext) != Fallback ==> exists i :: IsFirstMatch(table, ext, i) && table[i].name == Scan(table, ext)
  {
    if |table| == 0 {
    } else if ext in table[0].extensions {
      assert IsFirstMatch(table, ext, 0);
    } else {
      ScanFirstMatch(table[1..], ext);
      var r := Scan(table[1..], ext);
      assert forall i :: 0 <= i < |table| - 1 ==> table[1..][i] == table[i + 1];
      if r != Fallback {
        var i :| IsFirstMatch(table[1..], ext, i) && table[1..][i].name == r;
        assert IsFirstMatch(table, ext, i + 1);
      }
    }
  }

  lemma TableAvoidsFallback()
    ensures forall i :: 0 <= i < |Categories| ==> Categories[i].name != Fallback
  {
  }

  /** The category of a file extension: the extension is lower-cased and the
      table is scanned in order. What the result is, is stated by
      GetCategoryFirstMatch. */
  function GetCategory(ext: string): string
  {
    Scan(Categories, Lower(ext))
  }

  lemma GetCategoryIsCategoryName(ext: string)
    ensures GetCategory(ext) in CategoryNames
  {
    TableAvoidsFallback();
    CategoryNamesFollowTable();
    ScanFirstMatch(Categories, Lower(ext));
    var r := Scan(Categories, Lower(ext));
    if r != Fallback {
      var i :| IsFirstMatch(Categories, Lower(ext), i) && Categories[i].name == r;
      assert CategoryNames[i] == r;
    }
  }

  /** The first row (in table order) that lists the lower-cased extension
      names the category; when no row lists it, the category is the fallback. */
  lemma GetCategoryFirstMatch(ext: string)
    ensures GetCategory(ext) == Fallback <==> forall i :: 0 <= i < |Categories| ==> Lower(ext) !in Categories[i].extensions
    ensures GetCategory(ext) != Fallback ==>
              exists i :: IsFirstMatch(Categories, Lower(ext), i) && Categories[i].name == GetCategory(ext)
  {
    TableAvoidsFallback();
    ScanFirstMatch(Categories, Lower(ext));
  }

  /** Classification ignores the case of the extension. */
  lemma GetCategoryIgnoresCase(ext: string)
    ensures GetCategory(ext) == GetCategory(Lower(ext))
  {
    LowerIsLower(ext);
    LowerOfLower(Lower(ext));
  }

  /** A file without an extension lands in the fallback category. */
  lemma EmptyExtensionIsOther()
    ensures GetCategory("") == Fallback
  {
    UnlistedLengthIsOther("");
  }

  /** Every extension of the row has between two and five characters: a dot
      and one to four letters or digits. */
  predicate ShortExtensions(row: seq<string>)
  {
    forall k :: 0 <= k < |row| ==> 2 <= |row[k]| <= 5
  }

  lemma TableExtensionsShort()
    ensures forall i :: 0 <= i < |Categories| ==> ShortExtensions(Categories[i].extensions)
  {
    assert ShortExtensions(ImageExts);
    assert ShortExtensions(DocumentExts);
    assert ShortExtensions(AudioExts);
    assert ShortExtensions(VideoExts);
    assert ShortExtensions(ArchiveExts);
    assert ShortExtensions(ExecutableExts);
    assert ShortExtensions(CodeExts);
  }

  /** An extension shorter than two or longer than five characters is in no
      row, so it is classified as the fallback. */
  lemma UnlistedLengthIsOther(ext: string)
    requires |ext| < 2 || |ext| > 5
    ensures GetCategory(ext) == Fallback
  {
    TableExtensionsShort();
    LowerIsLower(ext);
    GetCategoryFirstMatch(ext);
    forall i | 0 <= i < |Categories|
      ensures Lower(ext) !in Categories[i].extensions
    {
      assert ShortExtensions(Categories[i].extensions);
    }
  }

  /** The first row that lists the lower-cased extension is the category:
      the converse of GetCategoryFirstMatch. */
  lemma FirstMatchClassified(ext: string, i: int)
    requires IsFirstMatch(Categories, Lower(ext), i)
    ensures GetCategory(ext) == Categories[i].name
  {
    GetCategoryFirstMatch(ext);
    var r := GetCategory(ext);
    assert r != Fallback by {
      assert Lower(ext) in Categories[i].extensions;
    }
    var k :| IsFirstMatch(Categories, Lower(ext), k) && Categories[k].name == r;
    assert k == i;
  }

  /** The three files of the documented scenario: `photo.JPG`, `notes.txt`
      and `archive.unknowncustomext`. */
  lemma ImageExample()
    ensures GetCategory(".JPG") == "Images"
  {
    assert Lower(".JPG") == ".jpg";
    assert ImageExts[0] == ".jpg";
    FirstMatchClassified(".JPG", 0);
  }

  lemma DocumentExample()
    ensures GetCategory(".txt") == "Documents"
  {
    assert Lower(".txt") == ".txt";
    assert DocumentExts[3] == ".txt";
    assert ".txt" !in ImageExts;
    FirstMatchClassified(".txt", 1);
  }

  lemma UnknownExample()
    ensures GetCategory(".unknowncustomext") == Fallback
  {
    // seventeen characters: longer than any listed extension
    assert |".unknowncustomext"| == 17;
    UnlistedLengthIsOther(".unknowncustomext");
  }
}
