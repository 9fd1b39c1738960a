/**
  Content-type resolution for static files (`ClientHandler.getContentType`): an ordered,
  case-sensitive test of five file-name suffixes, with a fixed fallback.
*/
module ContentType {
  import opened JavaString

  /** The type given to a name that ends with none of the known suffixes. */
  const DefaultType := "application/octet-stream"

  /** The (suffix, MIME type) pairs in the order `getContentType` tests them. */
  const Table: seq<(string, string)> := [
    (".html", "text/html"),
    (".css", "text/css"),
    (".js", "application/javascript"),
    (".png", "image/png"),
    (".jpg", "image/jpeg")
  ]

  /**
    The if-chain of `getContentType`, test by test. The fallback is returned exactly when
    no suffix of the table matches.
  */
  function GetContentType(fileName: string): (r: string)
    ensures r == DefaultType <==> forall i :: 0 <= i < |Table| ==> !EndsWith(fileName, Table[i].0)
  {
    assert Table[0].0 == ".html" && Table[1].0 == ".css" && Table[2].0 == ".js";
    assert Table[3].0 == ".png" && Table[4].0 == ".jpg";
    if EndsWith(fileName, ".html") then "text/html"
    else if EndsWith(fileName, ".css") then "text/css"
    else if EndsWith(fileName, ".js") then "application/javascript"
    else if EndsWith(fileName, ".png") then "image/png"
    else if EndsWith(fileName, ".jpg") then "image/jpeg"
    else DefaultType
  }

  /** Reference definition: the type of the first row of `table` whose suffix matches. */
  function FirstMatch(table: seq<(string, string)>, name: string): string
  {
    if table == [] then DefaultType
    else if EndsWith(name, table[0].0) then table[0].1
    else FirstMatch(table[1..], name)
  }

  /** `getContentType` is the first-match lookup in `Table`. */
  lemma GetContentTypeIsFirstMatch(name: string)
    ensures GetContentType(name) == FirstMatch(Table, name)
  {
    var t1 := [(".css", "text/css"), (".js", "application/javascript"), (".png", "image/png"), (".jpg", "image/jpeg")];
    var t2 := [(".js", "application/javascript"), (".png", "image/png"), (".jpg", "image/jpeg")];
    var t3 := [(".png", "image/png"), (".jpg", "image/jpeg")];
    var t4 := [(".jpg", "image/jpeg")];
    assert Table[1..] == t1 && t1[1..] == t2 && t2[1..] == t3 && t3[1..] == t4 && t4[1..] == [];
    assert FirstMatch(t4, name) == if EndsWith(name, ".jpg") then "image/jpeg" else DefaultType;
    assert FirstMatch(t3, name) == if EndsWith(name, ".png") then "image/png" else FirstMatch(t4, name);
    assert FirstMatch(t2, name) == if EndsWith(name, ".js") then "application/javascript" else FirstMatch(t3, name);
    assert FirstMatch(t1, name) == if EndsWith(name, ".css") then "text/css" else FirstMatch(t2, name);
  }

  /** A suffix of a longer suffix of `s` is itself a suffix of `s`. */
  lemma EndsWithShorter(s: string, long: string, short: string)
    requires EndsWith(s, long) && |short| <= |long|
    ensures EndsWith(s, short) <==> EndsWith(long, short)
  {
    assert s[|s| - |short|..] == long[|long| - |short|..];
  }

  /** A character of `s` that `suffix` does not contain rules out every suffix reaching it. */
  lemma NotEndsWithPast(s: string, suffix: string, k: nat)
    requires k < |s| && |s| - |suffix| <= k && s[k] !in suffix
    ensures !EndsWith(s, suffix)
  {
    if |suffix| <= |s| {
      assert s[|s| - |suffix|..][k - (|s| - |suffix|)] == s[k];
    }
  }

  /** A name that ends with two suffixes has them agree where they overlap. */
  lemma NotBoth(name: string, a: string, b: string, k: nat)
    requires |a| <= |b| && k < |a| && b[|b| - |a| + k] != a[k]
    ensures !(EndsWith(name, a) && EndsWith(name, b))
  {
    var n := |name|;
    if EndsWith(name, a) {
      assert name[n - |a|..][k] == name[n - |a| + k];
      if |b| <= n {
        assert name[n - |b|..][|b| - |a| + k] == name[n - |a| + k];
      }
    }
  }

  /** No name ends with two different suffixes of the table, so the order of the tests never decides. */
  lemma SuffixesExclusive(name: string, i: nat, j: nat)
    requires i < j < |Table|
    ensures !(EndsWith(name, Table[i].0) && EndsWith(name, Table[j].0))
  {
    var a, b := Table[i].0, Table[j].0;
    if |a| == |b| {
      NotBoth(name, a, b, 1);
    } else if |a| < |b| {
      NotBoth(name, a, b, 0);
    } else {
      NotBoth(name, b, a, 0);
    }
  }

  /** A name that ends with the suffix of row `i` gets the type of row `i`. */
  lemma ContentTypeOfSuffix(name: string, i: nat)
    requires i < |Table| && EndsWith(name, Table[i].0)
    ensures GetContentType(name) == Table[i].1
  {
    forall j: nat | j < |Table| && j != i
      ensures !EndsWith(name, Table[j].0)
    {
      if j < i { SuffixesExclusive(name, j, i); } else { SuffixesExclusive(name, i, j); }
    }
    assert Table[0].0 == ".html" && Table[1].0 == ".css" && Table[2].0 == ".js";
    assert Table[3].0 == ".png" && Table[4].0 == ".jpg";
  }

  /**
    The test is case-sensitive: a name whose last character is not the last character
    of any suffix (the upper-case "INDEX.HTML", say) gets the fallback type.
  */
  lemma FallbackByLastChar(name: string)
    requires name != [] && name[|name| - 1] !in {'l', 's', 'g'}
    ensures GetContentType(name) == DefaultType
  {
    var c := name[|name| - 1];
    forall i | 0 <= i < |Table| ensures !EndsWith(name, Table[i].0) {
      var ext := Table[i].0;
      if |ext| <= |name| {
        assert name[|name| - |ext|..][|ext| - 1] == c;
      }
    }
  }

  /** Upper-case and near-miss extensions are not recognised; the listed ones are. */
  lemma CaseSensitive()
    ensures GetContentType("INDEX.HTML") == DefaultType
    ensures GetContentType("logo.PNG") == DefaultType
    ensures GetContentType("page.htm") == DefaultType
    ensures GetContentType("index.html") == "text/html"
    ensures GetContentType("app.js") == "application/javascript"
  {
    assert "INDEX.HTML"[|"INDEX.HTML"| - 1] == 'L';
    FallbackByLastChar("INDEX.HTML");
    assert "logo.PNG"[|"logo.PNG"| - 1] == 'G';
    FallbackByLastChar("logo.PNG");
    assert "page.htm"[|"page.htm"| - 1] == 'm';
    FallbackByLastChar("page.htm");
    ContentTypeOfSuffix("index.html", 0);
    ContentTypeOfSuffix("app.js", 2);
  }

  /**
    The type of a file's last path segment is the type of its whole path: no suffix of
    the table contains '/', so it cannot reach past the last segment.
  */
  lemma SegmentAndPathAgree(path: string)
    ensures GetContentType(LastSegment(path)) == GetContentType(path)
  {
    SegmentSuffix(path, ".html");
    SegmentSuffix(path, ".css");
    SegmentSuffix(path, ".js");
    SegmentSuffix(path, ".png");
    SegmentSuffix(path, ".jpg");
  }

  /** A suffix without '/' ends the last segment exactly when it ends the whole path. */
  lemma SegmentSuffix(path: string, suffix: string)
    requires '/' !in suffix
    ensures EndsWith(LastSegment(path), suffix) <==> EndsWith(path, suffix)
  {
    var seg := LastSegment(path);
    if |suffix| <= |seg| {
      EndsWithShorter(path, seg, suffix);
    } else if |seg| < |path| {
      NotEndsWithPast(path, suffix, |path| - |seg| - 1);
    }
  }
}
