/** The work's name taken from the URL given on the command line (src/main.rs):
    the URL is cut at its first `?`, and the name is the last `/`-separated
    piece of what remains. */
module NovelUrl {
  import opened Wrappers
  import Text

  /** `url.split_once('?').unwrap_or((url, "")).0`. */
  function BeforeQuery(url: string): (r: string)
    ensures |r| <= |url| && r == url[..|r|]
    ensures '?' !in r
    ensures r == url <==> '?' !in url
    ensures r != url ==> url[|r|] == '?'
  {
    match Text.SplitOnce(url, '?')
    case Some(parts) =>
      assert url[..|parts.0|] == parts.0 && url[|parts.0|] == '?';
      parts.0
    case None => url
  }

  /** `before.split('/').rev().next()`: the last piece, which always exists. */
  function LastSegment(before: string): (r: Option<string>)
    ensures r.Some?
  {
    var pieces := Text.Split(before, '/');
    if |pieces| == 0 then None else Some(pieces[|pieces| - 1])
  }

  /** The name of the work: the `expect` on the last piece never fails, so
      this is always `Some`. */
  function NovelName(url: string): (r: Option<string>)
    ensures r.Some?
  {
    LastSegment(BeforeQuery(url))
  }

  /** The name is the text after the last `/` of the part before the query:
      a suffix of that part holding neither `/` nor `?`, preceded by a `/`
      unless that part holds no `/` at all. */
  lemma NovelNameIsLastSegment(url: string)
    ensures var before := BeforeQuery(url);
      var name := NovelName(url).value;
      && |name| <= |before|
      && name == before[|before| - |name|..]
      && '/' !in name && '?' !in name
      && ('/' !in before ==> name == before)
      && ('/' in before ==> |name| < |before| && before[|before| - |name| - 1] == '/')
  {
    var before := BeforeQuery(url);
    var pieces := Text.Split(before, '/');
    var name := pieces[|pieces| - 1];
    Text.LastPiece(before, '/');
    assert NovelName(url) == Some(name);
    SuffixWithout(before, name, '?');
  }

  /** A suffix of a string without `c` holds no `c` either. */
  lemma SuffixWithout(s: string, t: string, c: char)
    requires |t| <= |s| && t == s[|s| - |t|..] && c !in s
    ensures c !in t
  {
    forall i | 0 <= i < |t|
      ensures t[i] != c
    {
      assert t[i] == s[|s| - |t| + i];
    }
  }

  /** A URL without `/` and without `?` is its own name. */
  lemma PlainNameIsItself(url: string)
    requires '/' !in url && '?' !in url
    ensures NovelName(url) == Some(url)
  {
    NovelNameIsLastSegment(url);
  }

  /** A URL whose part before the query ends in `/` gives the empty name. */
  lemma TrailingSlashGivesEmptyName(url: string)
    requires var before := BeforeQuery(url); |before| > 0 && before[|before| - 1] == '/'
    ensures NovelName(url) == Some([])
  {
    NovelNameIsLastSegment(url);
  }

  /** The query does not affect the name. */
  lemma QueryIgnored(path: string, query: string)
    requires '?' !in path
    ensures NovelName(path + "?" + query) == NovelName(path)
  {
    Text.SplitOnceAt(path, '?', query);
    assert path + "?" + query == path + ['?'] + query;
  }
}
