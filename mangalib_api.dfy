/** The client of the upstream API (src/mangalib_api.rs): the records it decodes,
    the URLs it requests, the envelope normaliser `get_data` and the loop of
    `get_chapters` that keeps the chapters that decoded and skips the rest.

    The network is a parameter: `fetch(url)` is the body of the response to a
    GET of `url`, already parsed, or `None` when that body is not valid JSON.
    The work URL and the chapter-list URL are requested once, and their body
    is used whatever the status; a chapter URL is requested again until the
    status is 200, and `fetch` gives the body of that response. */
module MangalibApi {
  import opened Wrappers
  import opened Json
  import Text

  datatype Cover = Cover(default: string, thumbnail: string)

  /** The work's metadata; `rusName` is the JSON member `rus_name`. */
  datatype Info = Info(cover: Cover, name: string, rusName: string)

  datatype ChapterInfo = ChapterInfo(number: string, volume: string)

  datatype Chapter = Chapter(name: string, number: string, volume: string, content: string)

  /** Why `get_data` gave up: the text was not JSON, the envelope had no
      `data` member, or `data` did not decode; the last carries the diagnostic
      snippet that is printed. */
  datatype ApiError = Malformed | MissingData | SchemaMismatch(snippet: string)

  // ---------------------------------------------------------------------------
  // URLs

  const ApiBase: string := "https://api.mangalib.me/api/manga/"

  /** `get_url`: the metadata URL of a work. The work's name can be read back
      from it. */
  function GetUrl(name: string): (url: string)
    ensures |url| == |ApiBase| + |name|
    ensures url[..|ApiBase|] == ApiBase && url[|ApiBase|..] == name
  {
    ApiBase + name
  }

  lemma GetUrlInjective(a: string, b: string)
    requires GetUrl(a) == GetUrl(b)
    ensures a == b
  {
    assert a == GetUrl(a)[|ApiBase|..];
  }

  /** The URL of a work's chapter list: the work's URL with `/chapters`
      appended. The work's name can be read back from it. */
  function ChapterListUrl(name: string): (url: string)
    ensures |url| == |GetUrl(name)| + 9
    ensures url[..|GetUrl(name)|] == GetUrl(name) && url[|GetUrl(name)|..] == "/chapters"
    ensures url[|ApiBase|..|url| - 9] == name
  {
    var template := GetUrl(name);
    template + "/chapters"
  }

  /** The URL of one chapter, built from the work's URL and the chapter's
      number and volume. */
  function ChapterUrl(base: string, info: ChapterInfo): (url: string)
    ensures |url| == |base| + |info.number| + |info.volume| + 24
    ensures url[..|base|] == base && url[|url| - |info.volume|..] == info.volume
  {
    base + "/chapter?number=" + info.number + "&volume=" + info.volume
  }

  /** The query of a chapter URL splits at its first `&` into the number and
      the volume parameters when the number holds no `&`. */
  lemma ChapterQuerySplit(number: string, volume: string)
    requires '&' !in number
    ensures Text.SplitOnce("number=" + number + "&volume=" + volume, '&')
            == Some(("number=" + number, "volume=" + volume))
  {
    var query := "number=" + number + "&volume=" + volume;
    var numberParam := "number=" + number;
    var volumeParam := "volume=" + volume;
    assert query == numberParam + ['&'] + volumeParam;
    assert '&' !in numberParam by {
      assert forall j :: 0 <= j < |numberParam| ==>
        numberParam[j] == if j < 7 then "number="[j] else number[j - 7];
    }
    Text.SplitOnceAt(numberParam, '&', volumeParam);
  }

  /** The query of a chapter URL gives back the chapter's number and volume,
      provided the base holds no `?` and the number no `&`. */
  lemma ChapterUrlQuery(base: string, info: ChapterInfo)
    requires '?' !in base && '&' !in info.number
    ensures var query := "number=" + info.number + "&volume=" + info.volume;
      && Text.SplitOnce(ChapterUrl(base, info), '?') == Some((base + "/chapter", query))
      && Text.SplitOnce(query, '&') == Some(("number=" + info.number, "volume=" + info.volume))
  {
    var url := ChapterUrl(base, info);
    var path := base + "/chapter";
    var query := "number=" + info.number + "&volume=" + info.volume;
    assert url == path + ['?'] + query;
    assert '?' !in path by {
      assert forall j :: 0 <= j < |path| ==> path[j] == if j < |base| then base[j] else "/chapter"[j - |base|];
    }
    Text.SplitOnceAt(path, '?', query);
    ChapterQuerySplit(info.number, info.volume);
  }

  /** Two chapters whose numbers hold no `&` are requested from the same URL
      only if they have the same number and volume. */
  lemma ChapterUrlInjective(base: string, a: ChapterInfo, b: ChapterInfo)
    requires '?' !in base && '&' !in a.number && '&' !in b.number
    requires ChapterUrl(base, a) == ChapterUrl(base, b)
    ensures a == b
  {
    ChapterUrlQuery(base, a);
    ChapterUrlQuery(base, b);
    var pa := "number=" + a.number;
    var pb := "number=" + b.number;
    assert a.number == pa[7..] && b.number == pb[7..];
    var va := "volume=" + a.volume;
    var vb := "volume=" + b.volume;
    assert a.volume == va[7..] && b.volume == vb[7..];
  }

  // ---------------------------------------------------------------------------
  // Decoding (serde's derived `Deserialize` applied to a `serde_json::Value`)

  const CoverFields: seq<string> := ["default", "thumbnail"]
  const InfoFields: seq<string> := ["cover", "name", "rus_name"]
  const ChapterInfoFields: seq<string> := ["number", "volume"]
  const ChapterFields: seq<string> := ["name", "number", "volume", "content"]

  /** The values of a struct's fields, in declaration order. A struct decodes
      from an object holding every field (other members are ignored) or from
      an array with exactly one element per field. */
  function StructFields(v: Value, names: seq<string>): (r: Option<seq<Value>>)
    ensures r.Some? ==> |r.value| == |names|
    ensures r.Some? && v.Obj? ==> forall i :: 0 <= i < |names| ==> Get(v, names[i]) == Some(r.value[i])
    ensures r.Some? && v.Arr? ==> r.value == v.items
    ensures r.Some? <==> (v.Obj? && forall i :: 0 <= i < |names| ==> Get(v, names[i]).Some?)
                         || (v.Arr? && |v.items| == |names|)
  {
    match v
    case Obj(_) =>
      if forall i :: 0 <= i < |names| ==> Get(v, names[i]).Some? then
        Some(seq(|names|, i requires 0 <= i < |names| => Get(v, names[i]).value))
      else None
    case Arr(items) => if |items| == |names| then Some(items) else None
    case _ => None
  }

  /** The strings held by values that are all JSON strings. */
  function AsStrings(vs: seq<Value>): (r: Option<seq<string>>)
    ensures r.Some? <==> forall i :: 0 <= i < |vs| ==> vs[i].Str?
    ensures r.Some? ==> |r.value| == |vs| && forall i :: 0 <= i < |vs| ==> vs[i] == Str(r.value[i])
  {
    if forall i :: 0 <= i < |vs| ==> vs[i].Str? then
      Some(seq(|vs|, i requires 0 <= i < |vs| => vs[i].s))
    else None
  }

  function DecodeCover(v: Value): (r: Option<Cover>)
    ensures r.Some? ==> || (v.Obj? && Get(v, "default") == Some(Str(r.value.default))
                                   && Get(v, "thumbnail") == Some(Str(r.value.thumbnail)))
                        || v == Arr([Str(r.value.default), Str(r.value.thumbnail)])
    ensures (&& v.Obj? && Get(v, "default").Some? && Get(v, "default").value.Str?
             && Get(v, "thumbnail").Some? && Get(v, "thumbnail").value.Str?) ==> r.Some?
  {
    match StructFields(v, CoverFields)
    case None => None
    case Some(fs) =>
      match AsStrings(fs)
      case None => None
      case Some(ss) => Some(Cover(ss[0], ss[1]))
  }

  function DecodeInfo(v: Value): (r: Option<Info>)
    ensures r.Some? && v.Obj? ==> && Get(v, "cover").Some? && DecodeCover(Get(v, "cover").value) == Some(r.value.cover)
                                  && Get(v, "name") == Some(Str(r.value.name))
                                  && Get(v, "rus_name") == Some(Str(r.value.rusName))
    ensures r.Some? && v.Arr? ==> |v.items| == 3 && v == Arr([v.items[0], Str(r.value.name), Str(r.value.rusName)])
                                  && DecodeCover(v.items[0]) == Some(r.value.cover)
    ensures (&& v.Obj? && Get(v, "cover").Some? && DecodeCover(Get(v, "cover").value).Some?
             && Get(v, "name").Some? && Get(v, "name").value.Str?
             && Get(v, "rus_name").Some? && Get(v, "rus_name").value.Str?) ==> r.Some?
    ensures r.Some? ==> v.Obj? || v.Arr?
  {
    match StructFields(v, InfoFields)
    case None => None
    case Some(fs) =>
      match (DecodeCover(fs[0]), AsStrings(fs[1..]))
      case (Some(cover), Some(ss)) => Some(Info(cover, ss[0], ss[1]))
      case _ => None
  }

  function DecodeChapterInfo(v: Value): (r: Option<ChapterInfo>)
    ensures r.Some? ==> || (v.Obj? && Get(v, "number") == Some(Str(r.value.number))
                                   && Get(v, "volume") == Some(Str(r.value.volume)))
                        || v == Arr([Str(r.value.number), Str(r.value.volume)])
    ensures (&& v.Obj? && Get(v, "number").Some? && Get(v, "number").value.Str?
             && Get(v, "volume").Some? && Get(v, "volume").value.Str?) ==> r.Some?
  {
    match StructFields(v, ChapterInfoFields)
    case None => None
    case Some(fs) =>
      match AsStrings(fs)
      case None => None
      case Some(ss) => Some(ChapterInfo(ss[0], ss[1]))
  }

  /** `Vec<ChapterInfo>`: an array whose every element decodes, in order. */
  function DecodeChapterInfos(v: Value): (r: Option<seq<ChapterInfo>>)
    ensures r.Some? <==> v.Arr? && forall i :: 0 <= i < |v.items| ==> DecodeChapterInfo(v.items[i]).Some?
    ensures r.Some? ==> |r.value| == |v.items|
                        && forall i :: 0 <= i < |v.items| ==> DecodeChapterInfo(v.items[i]) == Some(r.value[i])
  {
    match v
    case Arr(items) =>
      if forall i :: 0 <= i < |items| ==> DecodeChapterInfo(items[i]).Some? then
        Some(seq(|items|, i requires 0 <= i < |items| => DecodeChapterInfo(items[i]).value))
      else None
    case _ => None
  }

  function DecodeChapter(v: Value): (r: Option<Chapter>)
    ensures r.Some? ==> || (&& v.Obj?
                            && Get(v, "name") == Some(Str(r.value.name))
                            && Get(v, "number") == Some(Str(r.value.number))
                            && Get(v, "volume") == Some(Str(r.value.volume))
                            && Get(v, "content") == Some(Str(r.value.content)))
                        || v == Arr([Str(r.value.name), Str(r.value.number), Str(r.value.volume), Str(r.value.content)])
  {
    match StructFields(v, ChapterFields)
    case None => None
    case Some(fs) =>
      match AsStrings(fs)
      case None => None
      case Some(ss) => Some(Chapter(ss[0], ss[1], ss[2], ss[3]))
  }

  /** A value decodes into a chapter exactly when it is an object whose
      `name`, `number`, `volume` and `content` are strings, or an array of
      those four strings; the chapter carries those strings. */
  lemma DecodeChapterExactly(v: Value, c: Chapter)
    ensures DecodeChapter(v) == Some(c) <==>
      || (&& v.Obj?
          && Get(v, "name") == Some(Str(c.name))
          && Get(v, "number") == Some(Str(c.number))
          && Get(v, "volume") == Some(Str(c.volume))
          && Get(v, "content") == Some(Str(c.content)))
      || v == Arr([Str(c.name), Str(c.number), Str(c.volume), Str(c.content)])
  {
    var objectForm := && v.Obj?
                      && Get(v, "name") == Some(Str(c.name))
                      && Get(v, "number") == Some(Str(c.number))
                      && Get(v, "volume") == Some(Str(c.volume))
                      && Get(v, "content") == Some(Str(c.content));
    if objectForm {
      var fs := StructFields(v, ChapterFields);
      assert fs.Some?;
      assert fs.value == [Str(c.name), Str(c.number), Str(c.volume), Str(c.content)];
    }
    var arrayForm := [Str(c.name), Str(c.number), Str(c.volume), Str(c.content)];
    if v == Arr(arrayForm) {
      assert StructFields(v, ChapterFields) == Some(arrayForm);
    }
  }

  /** Members other than the four chapter fields do not affect decoding. */
  lemma DecodeChapterIgnoresExtra(fields: seq<(string, Value)>, extra: (string, Value))
    requires extra.0 !in ChapterFields
    ensures DecodeChapter(Obj(fields + [extra])) == DecodeChapter(Obj(fields))
  {
    forall i | 0 <= i < |ChapterFields|
      ensures Get(Obj(fields + [extra]), ChapterFields[i]) == Get(Obj(fields), ChapterFields[i])
    {
      GetAppendOther(fields, extra, ChapterFields[i]);
    }
    var withExtra := StructFields(Obj(fields + [extra]), ChapterFields);
    var without := StructFields(Obj(fields), ChapterFields);
    assert withExtra.Some? <==> without.Some?;
    if without.Some? {
      assert forall i :: 0 <= i < |ChapterFields| ==> withExtra.value[i] == without.value[i];
      assert withExtra.value == without.value;
    }
  }

  // ---------------------------------------------------------------------------
  // The envelope normaliser

  /** `data.content` is itself a JSON object. */
  predicate HasObjectContent(d: Value)
  {
    Get(d, "content").Some? && Get(d, "content").value.Obj?
  }

  /** The rewrite `get_data` applies before decoding: structured content becomes
      the string of its serialisation; every other value is left alone. */
  function NormalizeContent(d: Value): (r: Value)
    ensures r == d <==> !HasObjectContent(d)
  {
    if HasObjectContent(d) then
      var content := Get(d, "content").value;
      PutGet(d.fields, "content", Str(Serialize(content)));
      Obj(Put(d.fields, "content", Str(Serialize(content))))
    else d
  }

  /** Structured content is replaced, in its place, by its serialisation, and
      every other member of `data` is unchanged. */
  lemma NormalizeContentRewrites(d: Value)
    requires HasObjectContent(d)
    ensures var r := NormalizeContent(d);
      && r.Obj?
      && Get(r, "content") == Some(Str(Serialize(Get(d, "content").value)))
      && (forall k :: k != "content" ==> Get(r, k) == Get(d, k))
      && Keys(r.fields) == Keys(d.fields)
  {
    PutGet(d.fields, "content", Str(Serialize(Get(d, "content").value)));
  }

  /** Normalising twice is normalising once: the rewritten content is a string. */
  lemma NormalizeContentIdempotent(d: Value)
    ensures NormalizeContent(NormalizeContent(d)) == NormalizeContent(d)
  {
    if HasObjectContent(d) {
      NormalizeContentRewrites(d);
    }
  }

  /** What `get_data` returns for an already parsed response (`None`: the text
      was not JSON). */
  function GetDataResult<T>(parsed: Option<Value>, decode: Value -> Option<T>): (r: Result<T, ApiError>)
    ensures r == Err(Malformed) <==> parsed.None?
    ensures r == Err(MissingData) <==> parsed.Some? && Get(parsed.value, "data").None?
    ensures r.Err? && r.error.SchemaMismatch? ==> |r.error.snippet| <= 100
  {
    match parsed
    case None => Err(Malformed)
    case Some(full) =>
      match Get(full, "data")
      case None => Err(MissingData)
      case Some(d) =>
        var data := NormalizeContent(d);
        match decode(data)
        case Some(x) => Ok(x)
        case None => Err(SchemaMismatch(Snippet(Serialize(data))))
  }

  /** Whatever the content, the `data` value is decoded after the rewrite, and
      a failure carries the snippet of the rewritten value's text. */
  lemma GetDataDecodesNormalized<T>(full: Value, d: Value, decode: Value -> Option<T>)
    requires Get(full, "data") == Some(d)
    ensures decode(NormalizeContent(d)).Some? ==>
              GetDataResult(Some(full), decode) == Ok(decode(NormalizeContent(d)).value)
    ensures decode(NormalizeContent(d)).None? ==>
              GetDataResult(Some(full), decode) == Err(SchemaMismatch(Snippet(Serialize(NormalizeContent(d)))))
  {
  }

  /** A top level that is not an object has no `data` member. */
  lemma GetDataNeedsObject<T>(full: Value, decode: Value -> Option<T>)
    requires !full.Obj?
    ensures GetDataResult(Some(full), decode) == Err(MissingData)
  {
  }

  /** Without structured content the `data` value is decoded as it is. */
  lemma GetDataPassesThrough<T>(full: Value, d: Value, decode: Value -> Option<T>)
    requires Get(full, "data") == Some(d) && !HasObjectContent(d)
    ensures decode(d).Some? ==> GetDataResult(Some(full), decode) == Ok(decode(d).value)
    ensures decode(d).None? ==> GetDataResult(Some(full), decode) == Err(SchemaMismatch(Snippet(Serialize(d))))
  {
    GetDataDecodesNormalized(full, d, decode);
  }

  /** A chapter whose content arrives as a JSON object decodes, and its content
      is the serialisation of that object. */
  lemma GetChapterWithObjectContent(full: Value, d: Value, name: string, number: string, volume: string,
                                    content: seq<(string, Value)>)
    requires Get(full, "data") == Some(d) && d.Obj?
    requires Get(d, "name") == Some(Str(name))
    requires Get(d, "number") == Some(Str(number))
    requires Get(d, "volume") == Some(Str(volume))
    requires Get(d, "content") == Some(Obj(content))
    ensures GetDataResult(Some(full), DecodeChapter) == Ok(Chapter(name, number, volume, Serialize(Obj(content))))
  {
    NormalizeContentRewrites(d);
    DecodeChapterExactly(NormalizeContent(d), Chapter(name, number, volume, Serialize(Obj(content))));
  }

  /** `get_data`, step by step: take `data` out of the envelope, rewrite
      structured content in place, decode, and on failure keep the snippet
      that is printed. */
  method GetData<T>(parsed: Option<Value>, decode: Value -> Option<T>) returns (r: Result<T, ApiError>)
    ensures r == GetDataResult(parsed, decode)
  {
    if parsed.None? {
      return Err(Malformed);
    }
    var fullJson := parsed.value;
    var found := Get(fullJson, "data");
    if found.None? {
      return Err(MissingData);
    }
    var dataValue := found.value;
    var content := Get(dataValue, "content");
    if content.Some? && content.value.Obj? {
      if dataValue.Obj? {
        var contentObj := content.value;
        dataValue := Obj(Put(dataValue.fields, "content", Str(Serialize(contentObj))));
      }
    }
    var decoded := decode(dataValue);
    if decoded.Some? {
      r := Ok(decoded.value);
    } else {
      var text := Serialize(dataValue);
      r := Err(SchemaMismatch(text[..Min(100, |text|)]));
    }
  }

  /** `get_info`: the work's metadata, from the work's URL. */
  method GetInfo(name: string, fetch: string -> Option<Value>) returns (r: Result<Info, ApiError>)
    ensures r == GetDataResult(fetch(GetUrl(name)), DecodeInfo)
    ensures r.Ok? ==> exists d :: Get(fetch(GetUrl(name)).value, "data") == Some(d)
                                  && DecodeInfo(NormalizeContent(d)) == Some(r.value)
  {
    var url := GetUrl(name);
    r := GetData(fetch(url), DecodeInfo);
  }

  // ---------------------------------------------------------------------------
  // Collecting the chapters

  /** The values of the `Ok` results, in their order; the `Err`s are dropped. */
  function Successes<T, E>(rs: seq<Result<T, E>>): (oks: seq<T>)
    ensures (forall i :: 0 <= i < |rs| ==> rs[i].Err?) ==> oks == []
  {
    if rs == [] then []
    else
      var last := rs[|rs| - 1];
      Successes(rs[..|rs| - 1]) + if last.Ok? then [last.value] else []
  }

  /** The positions of the `Ok` results, in increasing order. */
  function OkPositions<T, E>(rs: seq<Result<T, E>>): seq<nat>
  {
    if rs == [] then []
    else
      OkPositions(rs[..|rs| - 1]) + if rs[|rs| - 1].Ok? then [|rs| - 1] else []
  }

  /** The successes are exactly the `Ok` values picked out in input order: the
      k-th success is the value at the k-th `Ok` position, the positions
      increase, and every `Ok` is picked while no `Err` is. */
  lemma {:induction false} SuccessesAreOkSubsequence<T, E>(rs: seq<Result<T, E>>)
    ensures var ps := OkPositions(rs);
      && |ps| == |Successes(rs)|
      && (forall k :: 0 <= k < |ps| ==> ps[k] < |rs| && rs[ps[k]] == Ok(Successes(rs)[k]))
      && (forall k, l :: 0 <= k < l < |ps| ==> ps[k] < ps[l])
      && (forall i :: 0 <= i < |rs| ==> (rs[i].Ok? <==> i in ps))
  {
    if rs != [] {
      var front := rs[..|rs| - 1];
      SuccessesAreOkSubsequence(front);
      assert forall i :: 0 <= i < |front| ==> rs[i] == front[i];
    }
  }

  /** No more chapters than chapter descriptors. */
  lemma {:induction false} SuccessesBound<T, E>(rs: seq<Result<T, E>>)
    ensures |Successes(rs)| <= |rs|
  {
    if rs != [] {
      SuccessesBound(rs[..|rs| - 1]);
    }
  }

  /** Without failures nothing is dropped. */
  lemma {:induction false} SuccessesAllOk<T, E>(rs: seq<Result<T, E>>)
    requires forall i :: 0 <= i < |rs| ==> rs[i].Ok?
    ensures |Successes(rs)| == |rs|
    ensures forall i :: 0 <= i < |rs| ==> Successes(rs)[i] == rs[i].value
  {
    if rs != [] {
      SuccessesAllOk(rs[..|rs| - 1]);
    }
  }

  /** A failure in the middle is skipped, not replaced by anything. */
  lemma {:induction false} SuccessesSkipFailure<T, E>(before: seq<Result<T, E>>, e: E, after: seq<Result<T, E>>)
    ensures Successes(before + [Err(e)] + after) == Successes(before) + Successes(after)
  {
    var failed: seq<Result<T, E>> := [Err(e)];
    var front := before + failed;
    SuccessesConcat(front, after);
    SuccessesConcat(before, failed);
    assert Successes(failed) == [];
  }

  lemma {:induction false} SuccessesConcat<T, E>(a: seq<Result<T, E>>, b: seq<Result<T, E>>)
    ensures Successes(a + b) == Successes(a) + Successes(b)
  {
    if b == [] {
      assert a + b == a;
    } else {
      SuccessesConcat(a, b[..|b| - 1]);
      assert (a + b)[..|a + b| - 1] == a + b[..|b| - 1];
    }
  }

  /** The outcome of each chapter request, in the order of the descriptors. */
  function ChapterResults(base: string, infos: seq<ChapterInfo>, fetch: string -> Option<Value>)
    : seq<Result<Chapter, ApiError>>
  {
    seq(|infos|, i requires 0 <= i < |infos| => GetDataResult(fetch(ChapterUrl(base, infos[i])), DecodeChapter))
  }

  /** `get_chapters`: read the chapter list, request every chapter in list
      order, keep the ones that decode and skip the others. */
  method GetChapters(name: string, fetch: string -> Option<Value>) returns (r: Result<seq<Chapter>, ApiError>)
    ensures var listed := GetDataResult(fetch(ChapterListUrl(name)), DecodeChapterInfos);
      && (listed.Err? ==> r == Err(listed.error))
      && (listed.Ok? ==> r == Ok(Successes(ChapterResults(GetUrl(name), listed.value, fetch))))
  {
    var urlTemplate := GetUrl(name);
    var url := ChapterListUrl(name);
    var listed := GetData(fetch(url), DecodeChapterInfos);
    if listed.Err? {
      return Err(listed.error);
    }
    var chapterInfos := listed.value;
    ghost var results := ChapterResults(urlTemplate, chapterInfos, fetch);
    var chapters: seq<Chapter> := [];
    var i := 0;
    while i < |chapterInfos|
      invariant 0 <= i <= |chapterInfos|
      invariant chapters == Successes(results[..i])
    {
      var requestUrl := ChapterUrl(urlTemplate, chapterInfos[i]);
      var fetched := GetData(fetch(requestUrl), DecodeChapter);
      assert results[..i + 1][..i] == results[..i];
      if fetched.Ok? {
        chapters := chapters + [fetched.value];
      }
      i := i + 1;
    }
    assert results[..i] == results;
    return Ok(chapters);
  }
}
