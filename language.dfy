/** `get_file_extension_language`: `Path.suffix`, lower-cased, looked up with a "text" default. */
module Language {
  import opened PyText

  /** `s.rfind('.')` */
  function LastDot(s: string): (i: int)
    ensures -1 <= i < |s|
    ensures i >= 0 ==> s[i] == '.'
    ensures forall k :: i < k < |s| ==> s[k] != '.'
  {
    if s == [] then -1
    else if s[|s| - 1] == '.' then |s| - 1
    else LastDot(s[..|s| - 1])
  }

  /**
   * `Path(name).suffix`: from the last dot to the end, but only when that dot
   * is neither the first nor the last character of the name.
   */
  function Suffix(name: string): (ext: string)
    ensures ext == [] || (2 <= |ext| < |name| && ext[0] == '.' && '.' !in ext[1..] && EndsWith(name, ext))
  {
    var i := LastDot(name);
    if 0 < i < |name| - 1 then name[i..] else ""
  }

  /** A non-empty stem followed by `.x...` (one dot) has exactly that suffix. */
  lemma SuffixOfStemAndExtension(stem: string, ext: string)
    requires stem != []
    requires |ext| >= 2 && ext[0] == '.' && '.' !in ext[1..]
    ensures Suffix(stem + ext) == ext
  {
    var name := stem + ext;
    var i := LastDot(name);
    assert name[|stem|] == '.';
    forall k | |stem| < k < |name|
      ensures name[k] != '.'
    {
      assert name[k] == ext[1..][k - |stem| - 1];
    }
  }

  /** Dot-files and names ending in a dot have no suffix. */
  lemma NoSuffix(name: string)
    requires name != []
    requires (name[0] == '.' && '.' !in name[1..]) || name[|name| - 1] == '.' || '.' !in name
    ensures Suffix(name) == ""
  {
  }

  /** The language tag for a file name: `extension_map.get(suffix.lower(), "text")`. */
  function LanguageOf(name: string, extMap: map<string, string>): (lang: string)
    ensures lang == "text" || lang in extMap.Values
  {
    var ext := Lower(Suffix(name));
    if ext in extMap then extMap[ext] else "text"
  }

  /** A file named `stem + ext` for a lower-case key `ext` of the map gets that key's language. */
  lemma LanguageOfKnownExtension(stem: string, ext: string, extMap: map<string, string>)
    requires stem != [] && |ext| >= 2 && ext[0] == '.' && '.' !in ext[1..]
    requires Lower(ext) == ext && ext in extMap
    ensures LanguageOf(stem + ext, extMap) == extMap[ext]
  {
    SuffixOfStemAndExtension(stem, ext);
  }

  /** A file whose lower-cased extension is not a key of the map is tagged "text". */
  lemma LanguageOfUnknownExtension(stem: string, ext: string, extMap: map<string, string>)
    requires stem != [] && |ext| >= 2 && ext[0] == '.' && '.' !in ext[1..]
    requires Lower(ext) !in extMap
    ensures LanguageOf(stem + ext, extMap) == "text"
  {
    SuffixOfStemAndExtension(stem, ext);
  }

  lemma {:induction false} LastDotOfLower(s: string)
    ensures LastDot(Lower(s)) == LastDot(s)
  {
    if s != [] {
      assert Lower(s)[..|s| - 1] == Lower(s[..|s| - 1]);
      LastDotOfLower(s[..|s| - 1]);
    }
  }

  /** The lookup is case-insensitive: upper-casing ASCII letters of the name changes nothing. */
  lemma LanguageIgnoresCase(name: string, extMap: map<string, string>)
    ensures LanguageOf(Lower(name), extMap) == LanguageOf(name, extMap)
  {
    LastDotOfLower(name);
    var i := LastDot(name);
    if 0 < i < |name| - 1 {
      assert Lower(name)[i..] == Lower(name[i..]);
    }
    assert Lower(Lower(Suffix(name))) == Lower(Suffix(name));
  }
}
