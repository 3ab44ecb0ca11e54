/** The part headers of multipart/form-data: how `MultipartFormDataParser` reads a header line and how
    `serialize_multipart_formdata_item_begin` writes one. */
module MultipartHeader {
  import opened Text
  import opened Params
  import opened Percent

  /** `MultipartFormData` without the content. */
  datatype FileInfo = FileInfo(name: string, filename: string, contentType: string)

  const EMPTY_FILE := FileInfo("", "", "")

  /** What one header line leaves in `file_`, and whether parsing goes on. */
  datatype HeaderResult = HeaderResult(file: FileInfo, ok: bool)

  // ---------------------------------------------------------------- the two regular expressions

  /** What `.` matches throughout: no line terminator. */
  predicate OneLine(s: string) { '\r' !in s && '\n' !in s }

  /** Drops a prefix, compared without regard to letter case. */
  function DropPrefix(s: string, prefix: string): (r: Option<string>)
    ensures r.Some? ==> |prefix| <= |s| && r.value == s[|prefix|..]
  {
    if StartsWithIgnoringCase(s, prefix) then Some(s[|prefix|..]) else None
  }

  /** The group of ^Content-Disposition:\s*form-data;\s*(.*)$ in a match of the whole line. */
  function DispositionText(header: string): Option<string> {
    match DropPrefix(header, "content-disposition:")
    case None => None
    case Some(a) =>
      match DropPrefix(SkipSpace(a), "form-data;")
      case None => None
      case Some(b) => if OneLine(SkipSpace(b)) then Some(SkipSpace(b)) else None
  }

  /** The group of ^UTF-8''(.+?)$ in a match of the whole value. */
  function Rfc5987Text(v: string): Option<string> {
    match DropPrefix(v, "utf-8''")
    case None => None
    case Some(e) => if e != "" && OneLine(e) then Some(e) else None
  }

  // ---------------------------------------------------------------- reading a header line

  const UNQUOTE_TEXT: string -> string := x => Unquote(x)

  function DispositionParams(s: string): Params {
    ParseList(s, ';', UNQUOTE_TEXT)
  }

  /** The Content-Disposition branch, once the parameters are known. */
  function ApplyDisposition(ps: Params, f: FileInfo): HeaderResult {
    match Lookup(ps, "name")
    case None => HeaderResult(f, false)
    case Some(name) =>
      var f1 := f.(name := name);
      var filename := Lookup(ps, "filename");
      var f2 := if filename.Some? then f1.(filename := filename.value) else f1;
      match Lookup(ps, "filename*")
      case None => HeaderResult(f2, true)
      case Some(v) =>
        match Rfc5987Text(v)
        case None => HeaderResult(f2, false)
        case Some(e) => HeaderResult(f2.(filename := DecodeUrl(e, false)), true)
  }

  /** The body of the header loop for one non-empty line. */
  function ReadHeader(header: string, f: FileInfo): HeaderResult {
    if StartsWithIgnoringCase(header, "content-type:") then
      HeaderResult(f.(contentType := Trim(header[13..])), true)
    else
      match DispositionText(header)
      case None => HeaderResult(f, false)
      case Some(s) => ApplyDisposition(DispositionParams(s), f)
  }

  // ---------------------------------------------------------------- writing a header line

  function DispositionValue(name: string, filename: string): string {
    "name=" + Quoted(name) + if filename == "" then "" else "; filename=" + Quoted(filename)
  }

  function Quoted(v: string): string { "\"" + v + "\"" }

  function DispositionLine(name: string, filename: string): string {
    "Content-Disposition: form-data; " + DispositionValue(name, filename)
  }

  function ContentTypeLine(contentType: string): string {
    "Content-Type: " + contentType
  }

  // ---------------------------------------------------------------- round trip of one line

  lemma ContentTypeRoundTrip(t: string, f: FileInfo)
    ensures ReadHeader(ContentTypeLine(t), f).ok
    ensures ReadHeader(ContentTypeLine(t), f).file == f.(contentType := t) <==> Trimmed(t)
  {
    hide ContentTypeLine, StartsWithIgnoringCase, Trim, Trimmed;
    ContentTypePrefix(t);
    TrimLeadingBlank(t);
    TrimIdentity(t);
  }

  lemma ContentTypePrefix(t: string)
    ensures var line := ContentTypeLine(t);
            |line| >= 13 && StartsWithIgnoringCase(line, "content-type:") && line[13..] == " " + t
  {
  }

  lemma DispositionTextOfLine(name: string, filename: string)
    ensures var v := DispositionValue(name, filename);
            !StartsWithIgnoringCase(DispositionLine(name, filename), "content-type:")
            && DispositionText(DispositionLine(name, filename)) == if OneLine(v) then Some(v) else None
  {
    assert DispositionValue(name, filename)[0] == 'n';
    TextOfLine(DispositionValue(name, filename));
  }

  lemma TextOfLine(v: string)
    requires v != "" && v[0] == 'n'
    ensures var line := "Content-Disposition: form-data; " + v;
            && !StartsWithIgnoringCase(line, "content-type:")
            && DispositionText(line) == if OneLine(v) then Some(v) else None
  {
    PrefixOfLine(v);
    assert SkipSpace(v) == v;
    assert SkipSpace(" " + v) == v by { assert (" " + v)[1..] == v; }
    var b := "form-data; " + v;
    assert SkipSpace(" " + b) == b by { assert (" " + b)[1..] == b; assert b[0] == 'f'; assert SkipSpace(b) == b; }
  }

  lemma PrefixOfLine(v: string)
    ensures var line := "Content-Disposition: form-data; " + v; var b := "form-data; " + v;
            DropPrefix(line, "content-disposition:") == Some(" " + b)
            && DropPrefix(b, "form-data;") == Some(" " + v)
            && !StartsWithIgnoringCase(line, "content-type:")
  {
    var line := "Content-Disposition: form-data; " + v;
    var b := "form-data; " + v;
    assert line[20..] == " " + b;
    assert b[10..] == " " + v;
    assert line[8] == 'D';
  }

  /** Values that survive the splits at ';' and '=' and the one-line regular expression. */
  predicate PlainValue(v: string) {
    OneLine(v) && ';' !in v && '=' !in v
  }

  lemma UnquoteQuoted(v: string)
    ensures Unquote(Quoted(v)) == v && Trimmed(Quoted(v))
  {
  }

  function Attribute(key: string, v: string): string { key + "=" + Quoted(v) }

  /** One quoted attribute is read back. */
  lemma AttributeParses(key: string, v: string)
    requires key in {"name", "filename"} && '=' !in v
    ensures SplitPair(Attribute(key, v)) == (key, Quoted(v))
  {
    UnquoteQuoted(v);
    PairSplits(key, Quoted(v));
  }

  lemma AttributeTrims(key: string, v: string)
    requires key in {"name", "filename"}
    ensures var a := Attribute(key, v); Trim(a) == a && a != "" && (';' !in v ==> ';' !in a)
  {
    var a := Attribute(key, v);
    assert a[0] == key[0] && a[|a| - 1] == '"';
    TrimIdentity(a);
    assert forall c :: c in a ==> c in key || c == '=' || c == '"' || c in v;
  }

  lemma JoinedAttributes(name: string, filename: string)
    ensures var a, b := Attribute("name", name), Attribute("filename", filename);
            DispositionValue(name, filename) == if filename == "" then a else a + [';'] + (" " + b)
  {
    var a, b := Attribute("name", name), Attribute("filename", filename);
    assert "; filename=" == [';'] + (" " + "filename=");
    assert DispositionValue(name, filename) == a + if filename == "" then "" else [';'] + (" " + b);
  }

  /** The outer split cuts the attributes apart. */
  lemma DispositionSplits(name: string, filename: string)
    requires ';' !in name && ';' !in filename
    ensures Split(DispositionValue(name, filename), ';')
            == [Attribute("name", name)] + if filename == "" then [] else [Attribute("filename", filename)]
  {
    var a, b := Attribute("name", name), Attribute("filename", filename);
    AttributeTrims("name", name);
    AttributeTrims("filename", filename);
    SplitTwo(a, ';', b);
    JoinedAttributes(name, filename);
  }

  lemma DispositionParamsOf(name: string, filename: string)
    requires ';' !in name && ';' !in filename && '=' !in name && '=' !in filename
    ensures DispositionParams(DispositionValue(name, filename))
            == (if filename == "" then [] else [("filename", filename)]) + [("name", name)]
  {
    hide Split, SplitPair, Gather, Emplace, DispositionValue, Attribute, Quoted, Unquote;
    var a, b := Attribute("name", name), Attribute("filename", filename);
    DispositionSplits(name, filename);
    AttributeParses("name", name);
    AttributeParses("filename", filename);
    UnquoteQuoted(name);
    UnquoteQuoted(filename);
    KeysUnquoted();
    var rest := if filename == "" then [] else [b];
    GatherNext(a, rest, UNQUOTE_TEXT, {}, []);
    EmplaceAtEnd([], "name", name);
    assert [] + [("name", name)] == [("name", name)];
    if filename == "" {
      GatherNone(UNQUOTE_TEXT, {} + {a}, [("name", name)]);
      assert [a] + rest == [a] + [];
    } else {
      DifferentItems(name, filename);
      GatherNext(b, [], UNQUOTE_TEXT, {} + {a}, [("name", name)]);
      assert rest == [b] + [];
      GatherNone(UNQUOTE_TEXT, {} + {a} + {b}, [("filename", filename), ("name", name)]);
      NameBehind(name, filename);
    }
  }

  lemma KeysUnquoted()
    ensures Unquote("name") == "name" && Unquote("filename") == "filename"
  {
  }

  lemma DifferentItems(name: string, filename: string)
    ensures Attribute("name", name) != Attribute("filename", filename)
  {
    assert Attribute("name", name)[0] == 'n' && Attribute("filename", filename)[0] == 'f';
  }

  lemma NameBehind(name: string, filename: string)
    ensures Emplace([("name", name)], "filename", filename) == [("filename", filename), ("name", name)]
  {
    LessByFirst("filename", "name");
  }

  /** What a read-back Content-Disposition line must leave in `file_`. */
  function Disposed(name: string, filename: string, f: FileInfo): FileInfo {
    FileInfo(name, if filename == "" then f.filename else filename, f.contentType)
  }

  lemma PlainDispositionParses(name: string, filename: string, f: FileInfo)
    requires PlainValue(name) && PlainValue(filename)
    ensures ReadHeader(DispositionLine(name, filename), f) == HeaderResult(Disposed(name, filename, f), true)
  {
    DispositionTextOfLine(name, filename);
    OneLineValue(name, filename);
    DispositionParamsOf(name, filename);
    var ps := DispositionParams(DispositionValue(name, filename));
    LookupsOf(ps, name, filename);
  }

  lemma OneLineValue(name: string, filename: string)
    ensures OneLine(DispositionValue(name, filename)) <==> OneLine(name) && OneLine(filename)
  {
    assert forall c :: c in name || c in filename ==> c in DispositionValue(name, filename);
  }

  lemma LookupsOf(ps: Params, name: string, filename: string)
    requires ps == (if filename == "" then [] else [("filename", filename)]) + [("name", name)]
    ensures Lookup(ps, "name") == Some(name) && Lookup(ps, "filename*") == None
    ensures Lookup(ps, "filename") == if filename == "" then None else Some(filename)
  {
    assert |"filename"| == 8 && |"name"| == 4 && |"filename*"| == 9;
    if filename != "" {
      assert ps[1..] == [("name", name)];
      assert Lookup(ps[1..], "name") == Some(name);
      assert Lookup(ps[1..], "filename*") == None by { assert ps[1..][1..] == []; }
    }
  }

  // ---------------------------------------------------------------- and back: only plain values survive

  lemma UnquoteChars(s: string)
    ensures |Unquote(s)| <= |s| && forall c :: c in Unquote(s) ==> c in s
  {
  }

  /** No parameter value holds a separator. */
  lemma ParamValues(s: string, k: string, v: string)
    requires (k, v) in DispositionParams(s)
    ensures ';' !in v && '=' !in v
  {
    var pieces := Split(s, ';');
    GatherOrigin(pieces, UNQUOTE_TEXT, {}, [], (k, v));
    var p :| p in pieces && (k, v) == Entry(p, UNQUOTE_TEXT);
    SplitPieces(s, ';', p);
    SplitPairParts(p);
    UnquoteChars(SplitPair(p).1);
  }

  /** The key of an attribute does not depend on its value. */
  lemma AttributeKey(key: string, v: string)
    requires key in {"name", "filename"}
    ensures SplitPair(Trim(" " + key + "=" + v)).0 == key && SplitPair(Trim(key + "=" + v)).0 == key
    ensures Trim(" " + key + "=" + v) == Trim(key + "=" + v) != ""
  {
    var a := key + "=" + v;
    assert " " + key + "=" + v == " " + a;
    TrimLeadingBlank(a);
    KeyOfTrimmed(key, v);
  }

  /** The split of a filename attribute: an item keyed "filename", then parts of the filename. */
  lemma FilenamePieces(filename: string) returns (b: string, tail: string)
    ensures |tail| <= |filename| && SplitPair(b).0 == "filename"
    ensures var ps := Split(" " + Attribute("filename", filename), ';'); ps == [b] || ps == [b] + Split(tail, ';')
  {
    hide Trim, Split, SplitPair;
    var q := Quoted(filename);
    var i := IndexOf(q, ';');
    AttributeKey("filename", q[..i]);
    var pre := " " + "filename" + "=";
    assert " " + Attribute("filename", filename) == pre + q;
    SplitAfter(pre, q, ';');
    b := Trim(pre + q[..i]);
    assert i > 0;
    tail := if i == |q| then "" else q[i + 1..];
  }

  /** The items of a disposition with a filename: the name first. */
  lemma DispositionPieces(name: string, filename: string) returns (b: string, tail: string)
    requires ';' !in name && filename != ""
    ensures |tail| <= |filename| && SplitPair(b).0 == "filename"
    ensures var ps, a := Split(DispositionValue(name, filename), ';'), Attribute("name", name);
            ps == [a] + [b] || ps == [a] + ([b] + Split(tail, ';'))
  {
    JoinedAttributes(name, filename);
    AttributeTrims("name", name);
    SplitFirst(Attribute("name", name), ';', " " + Attribute("filename", filename));
    b, tail := FilenamePieces(filename);
  }

  /** The parameters of such a disposition: "filename" is there, ... */
  lemma FilenameThere(name: string, filename: string)
    requires ';' !in name && '=' !in name && filename != ""
    ensures Lookup(DispositionParams(DispositionValue(name, filename)), "filename").Some?
  {
    var v := DispositionValue(name, filename);
    var pieces := Split(v, ';');
    var b, tail := DispositionPieces(name, filename);
    AttributeParses("name", name);
    assert pieces == [Attribute("name", name)] + pieces[1..] && pieces[1..][0] == b;
    FilenamePresent(Attribute("name", name), pieces[1..]);
    LookupElement(DispositionParams(v), "filename");
  }

  /** ... and a "filename*" is no longer than the filename. */
  lemma StarIsShort(name: string, filename: string)
    requires ';' !in name && '=' !in name && filename != ""
    ensures var star := Lookup(DispositionParams(DispositionValue(name, filename)), "filename*");
            star.Some? ==> |star.value| <= |filename|
  {
    var b, tail := DispositionPieces(name, filename);
    AttributeParses("name", name);
    StarFromPieces(Split(DispositionValue(name, filename), ';'), Attribute("name", name), b, tail);
  }

  lemma StarFromPieces(pieces: seq<string>, a: string, b: string, tail: string)
    requires forall p :: p in pieces ==> p == a || p == b || p in Split(tail, ';')
    requires SplitPair(a).0 == "name" && SplitPair(b).0 == "filename"
    ensures var star := Lookup(Gather(pieces, UNQUOTE_TEXT, {}, []), "filename*"); star.Some? ==> |star.value| <= |tail|
  {
    if Lookup(Gather(pieces, UNQUOTE_TEXT, {}, []), "filename*").Some? {
      var p := LookupOrigin(pieces, UNQUOTE_TEXT, "filename*");
      StarPiece(p, a, b, tail);
    }
  }

  /** An item keyed "filename*" is a part of the filename. */
  lemma StarPiece(p: string, a: string, b: string, tail: string)
    requires SplitPair(a).0 == "name" && SplitPair(b).0 == "filename" && Unquote(SplitPair(p).0) == "filename*"
    requires p == a || p == b || p in Split(tail, ';')
    ensures |Unquote(SplitPair(p).1)| <= |tail|
  {
    assert |"filename*"| == 9 && |Unquote("filename")| <= 8 && |Unquote("name")| <= 4;
    SplitPieces(tail, ';', p);
    SplitPairParts(p);
    UnquoteChars(SplitPair(p).1);
  }

  lemma FilenamePresent(a: string, pieces: seq<string>)
    requires SplitPair(a).0 == "name" && pieces != [] && SplitPair(pieces[0]).0 == "filename"
    ensures exists v :: ("filename", v) in Gather([a] + pieces, UNQUOTE_TEXT, {}, [])
  {
    var ps := AddPair([], UNQUOTE_TEXT, SplitPair(a));
    GatherNext(a, pieces, UNQUOTE_TEXT, {}, []);
    assert |"name"| == 4 && |"filename"| == 8;
    GatherKeeps(pieces, UNQUOTE_TEXT, {} + {a}, ps);
    assert Unquote("filename") == "filename";
    assert Entry(pieces[0], UNQUOTE_TEXT).0 == "filename";
    assert ("filename", Entry(pieces[0], UNQUOTE_TEXT).1) in Gather([a] + pieces, UNQUOTE_TEXT, {}, []);
  }

  lemma SurvivingName(name: string, filename: string, f: FileInfo)
    requires ReadHeader(DispositionLine(name, filename), f) == HeaderResult(Disposed(name, filename, f), true)
    ensures PlainValue(name) && OneLine(filename)
  {
    hide DispositionLine, DispositionText, DispositionValue, Lookup, DispositionParams;
    DispositionTextOfLine(name, filename);
    var v := DispositionValue(name, filename);
    OneLineValue(name, filename);
    LookupElement(DispositionParams(v), "name");
    ParamValues(v, "name", name);
  }

  lemma DecodedIsShorter(v: string)
    ensures Rfc5987Text(v).Some? ==> |DecodeUrl(Rfc5987Text(v).value, false)| < |v|
  {
    if Rfc5987Text(v).Some? {
      DecodeShrinks(Rfc5987Text(v).value, false);
    }
  }

  lemma SurvivingFilename(name: string, filename: string, f: FileInfo)
    requires filename != ""
    requires ReadHeader(DispositionLine(name, filename), f) == HeaderResult(Disposed(name, filename, f), true)
    ensures PlainValue(filename)
  {
    SurvivingName(name, filename, f);
    DispositionTextOfLine(name, filename);
    var v := DispositionValue(name, filename);
    var ps := DispositionParams(v);
    FilenameThere(name, filename);
    StarIsShort(name, filename);
    if Lookup(ps, "filename*").Some? {
      DecodedIsShorter(Lookup(ps, "filename*").value);
    } else {
      LookupElement(ps, "filename");
      ParamValues(v, "filename", filename);
    }
  }

  /** The parser reads back a written Content-Disposition line exactly when name and filename are
      free of ';', '=', CR and LF. */
  lemma DispositionRoundTrip(name: string, filename: string, f: FileInfo)
    ensures ReadHeader(DispositionLine(name, filename), f) == HeaderResult(Disposed(name, filename, f), true)
            <==> PlainValue(name) && PlainValue(filename)
  {
    if PlainValue(name) && PlainValue(filename) {
      PlainDispositionParses(name, filename, f);
    } else if ReadHeader(DispositionLine(name, filename), f) == HeaderResult(Disposed(name, filename, f), true) {
      SurvivingName(name, filename, f);
      if filename != "" { SurvivingFilename(name, filename, f); }
    }
  }

  /** A form field named a;b comes back with the name "a, an opening quote and all. */
  lemma SplitName()
    ensures ReadHeader(DispositionLine("a;b", ""), EMPTY_FILE) == HeaderResult(FileInfo("\"a", "", ""), true)
  {
    hide DispositionLine, DispositionText, DispositionValue, DispositionParams, StartsWithIgnoringCase, Lookup;
    SplitNameParams();
    DispositionTextOfLine("a;b", "");
    OneLineValue("a;b", "");
    SplitNameLookups();
  }

  lemma SplitNameLookups()
    ensures var ps := [("b\"", ""), ("name", "\"a")];
            Lookup(ps, "name") == Some("\"a") && Lookup(ps, "filename") == None && Lookup(ps, "filename*") == None
  {
    var ps := [("b\"", ""), ("name", "\"a")];
    assert |"name"| == 4 && |"filename"| == 8 && |"filename*"| == 9;
    assert ps[1..] == [("name", "\"a")] && ps[1..][1..] == [];
    assert Lookup(ps[1..], "name") == Some("\"a");
    assert Lookup(ps[1..], "filename") == None && Lookup(ps[1..], "filename*") == None;
  }

  lemma SplitNameParams()
    ensures DispositionParams(DispositionValue("a;b", "")) == [("b\"", ""), ("name", "\"a")]
  {
    hide Split, SplitPair, Gather, Less;
    var v, p, q := DispositionValue("a;b", ""), "name=\"a", "b\"";
    assert v == p + [';'] + q;
    SplitNamePieces(p, q);
    var name := [("name", "\"a")];
    assert [p, q] == [p] + [q] && [q] == [q] + [];
    GatherNext(p, [q], UNQUOTE_TEXT, {}, []);
    GatherNext(q, [], UNQUOTE_TEXT, {} + {p}, name);
    assert p[0] != q[0];
    GatherNone(UNQUOTE_TEXT, {} + {p} + {q}, [(q, "")] + name);
    LessByFirst(q, "name");
  }

  lemma GatherNone(f: string -> string, cache: set<string>, ps: Params)
    ensures Gather([], f, cache, ps) == ps
  {
  }

  lemma LessByFirst(a: string, b: string)
    requires a != "" && b != "" && a[0] < b[0]
    ensures Less(a, b)
  {
  }

  lemma SplitNamePieces(p: string, q: string)
    requires p == "name=\"a" && q == "b\""
    ensures Split(p + [';'] + q, ';') == [p, q] && SplitPair(p) == ("name", "\"a") && SplitPair(q) == (q, "")
  {
    hide Trim;
    TrimIdentity(p);
    TrimIdentity(q);
    SplitFirst(p, ';', q);
    SplitLast(q, ';');
    assert p == "name" + "=" + "\"a";
    PairSplits("name", "\"a");
    SplitLast(q, '=');
  }
}
