/** The extended file name of a part header, as section 3.2 of RFC 5987 codes it. */
module MultipartExtended {
  import opened Text
  import opened Params
  import opened Percent
  import opened MultipartHeader
  import opened Query

  /** A Content-Disposition line with an extended file name at its end. */
  function ExtendedLine(name: string, filename: string, v: string): string {
    DispositionLine(name, filename) + "; filename*=" + v
  }

  function ExtendedItem(v: string): string { "filename*" + "=" + v }

  lemma ItemRead(v: string)
    requires Trimmed(v) && PlainValue(v)
    ensures var e := ExtendedItem(v); Split(" " + e, ';') == [e] && SplitPair(e) == ("filename*", v)
  {
    hide Split, SplitPair, Trim, Trimmed, ExtendedItem;
    var e := ExtendedItem(v);
    ItemShape(v);
    TrimIdentity(e);
    TrimLeadingBlank(e);
    SplitLast(" " + e, ';');
    KeyShape();
    PairSplits("filename*", v);
    assert e == "filename*" + "=" + v by { ItemIs(v); }
  }

  lemma ItemShape(v: string)
    requires Trimmed(v) && ';' !in v
    ensures var e := ExtendedItem(v); e != "" && Trimmed(e) && ';' !in " " + e
  {
    var e := ExtendedItem(v);
    assert e[0] == 'f' && e[|e| - 1] == if v == "" then '=' else v[|v| - 1];
    assert forall c :: c in " " + e ==> c in v || c in " filename*=";
  }

  lemma KeyShape()
    ensures "filename*" != "" && Trimmed("filename*") && '=' !in "filename*"
  {
  }

  lemma ItemIs(v: string)
    ensures ExtendedItem(v) == "filename*" + "=" + v
  {
  }

  lemma Regrouped(d: string, v: string)
    ensures d + "; filename*=" + v == d + [';'] + (" " + ExtendedItem(v))
  {
    assert "; filename*=" == [';'] + (" " + ("filename*" + "="));
  }

  /** The items of the line: those of the plain line, and then the extended name. */
  lemma ExtendedSplits(name: string, filename: string, v: string)
    requires PlainValue(name) && PlainValue(filename) && PlainValue(v) && Trimmed(v)
    ensures var d, e := DispositionValue(name, filename), ExtendedItem(v);
            Split(d + [';'] + (" " + e), ';') == Split(d, ';') + [e] && e !in Split(d, ';')
  {
    hide Split, SplitPair, DispositionValue;
    var d, e := DispositionValue(name, filename), ExtendedItem(v);
    SplitBoth(d, ';', " " + e);
    ItemRead(v);
    DispositionSplits(name, filename);
    var a, b := Attribute("name", name), Attribute("filename", filename);
    assert a[0] == 'n' && e[0] == 'f' && b[8] == '=' && e[8] == '*';
  }

  /** What the parameters of the line hold. */
  lemma ExtendedParams(name: string, filename: string, v: string)
    requires PlainValue(name) && PlainValue(filename) && PlainValue(v) && Trimmed(v)
    ensures var ps := DispositionParams(DispositionValue(name, filename) + [';'] + (" " + ExtendedItem(v)));
            Lookup(ps, "name") == Some(name) && Lookup(ps, "filename*") == Some(Unquote(v))
  {
    hide Split, SplitPair, DispositionValue, ExtendedItem, Gather, Emplace, Lookup;
    var d, e := DispositionValue(name, filename), ExtendedItem(v);
    ExtendedSplits(name, filename, v);
    ItemRead(v);
    GatherLast(Split(d, ';'), e, UNQUOTE_TEXT, {}, []);
    var ps := DispositionParams(d);
    DispositionParamsOf(name, filename);
    LookupsOf(ps, name, filename);
    assert |"filename*"| == 9 && |"name"| == 4 && Unquote("filename*") == "filename*";
    EmplaceLookup(ps, "filename*", Unquote(v), "name");
    EmplaceLookup(ps, "filename*", Unquote(v), "filename*");
  }

  /** An extended file name is accepted if and only if it starts with UTF-8'' in any letter case and goes on. What
      goes on is then decoded, and overrides a plain file name. */
  lemma ExtendedRead(name: string, filename: string, v: string, f: FileInfo)
    requires PlainValue(name) && PlainValue(filename) && PlainValue(v) && Trimmed(v)
    ensures var u, r := Unquote(v), ReadHeader(ExtendedLine(name, filename, v), f);
            && (r.ok <==> |u| > 7 && StartsWithIgnoringCase(u, "utf-8''"))
            && (r.ok ==> r.file == FileInfo(name, DecodeUrl(u[7..], false), f.contentType))
  {
    hide DispositionText, DispositionValue, DispositionParams, StartsWithIgnoringCase, DecodeUrl, Lookup;
    var d, t := DispositionValue(name, filename), DispositionValue(name, filename) + [';'] + (" " + ExtendedItem(v));
    Regrouped(d, v);
    assert ExtendedLine(name, filename, v) == "Content-Disposition: form-data; " + t;
    TextStart(name, filename, t);
    TextOfLine(t);
    OneLineValue(name, filename);
    assert OneLine(t) by { ItemOneLine(d, v); }
    ExtendedParams(name, filename, v);
    UnquoteChars(v);
    Rfc5987Is(Unquote(v));
  }

  lemma TextStart(name: string, filename: string, t: string)
    requires DispositionValue(name, filename) <= t
    ensures t != "" && t[0] == 'n'
  {
    assert DispositionValue(name, filename)[0] == 'n';
  }

  lemma ItemOneLine(d: string, v: string)
    requires OneLine(d) && OneLine(v)
    ensures OneLine(d + [';'] + (" " + ExtendedItem(v)))
  {
    assert forall c :: c in d + [';'] + (" " + ExtendedItem(v)) ==> c in d || c in v || c in "; filename*=";
  }

  lemma Rfc5987Is(u: string)
    requires OneLine(u)
    ensures Rfc5987Text(u)
            == if |u| > 7 && StartsWithIgnoringCase(u, "utf-8''") then Some(u[7..]) else None
  {
    hide StartsWithIgnoringCase;
    assert |"utf-8''"| == 7;
  }

  /** Any non-empty file name arrives, however it is spelled, if it is percent-coded in this way. */
  lemma ExtendedRoundTrip(name: string, filename: string, x: string, f: FileInfo)
    requires PlainValue(name) && PlainValue(filename) && IsBytes(x) && x != ""
    ensures ReadHeader(ExtendedLine(name, filename, "UTF-8''" + EncodeQueryParam(x)), f)
            == HeaderResult(FileInfo(name, x, f.contentType), true)
  {
    hide ReadHeader, EncodeQueryParam, DecodeUrl;
    var e := Encoded(x);
    var v := "UTF-8''" + e;
    EncodedPlain(x);
    DecodeInvertsEncode(x, false);
    assert v[0] == 'U' && v[7..] == e && v[|v| - 1] == e[|e| - 1];
    ExtendedRead(name, filename, v, f);
  }

  lemma EncodedPlain(x: string)
    requires IsBytes(x)
    ensures PlainValue("UTF-8''" + EncodeQueryParam(x)) && StartsWithIgnoringCase("UTF-8''", "utf-8''")
  {
    hide EncodeQueryParam;
    EncodedChars(x);
    var e := EncodeQueryParam(x);
    forall c | c in "UTF-8''" + e ensures c !in "\r\n;=" {
      assert c in "UTF-8''" || Unreserved(c) || c == '%';
    }
  }

  // ---------------------------------------------------------------- spelling of the header

  /** White space around form-data and the letter case of the names do not matter. */
  lemma SpelledOtherwise(header: string, w: string, form: string, x: string, v: string)
    requires SameLetters(header, "content-disposition:") && SameLetters(form, "form-data;") && OneLine(v)
    requires forall c :: c in w + x ==> c in " \t\n\r" || c as int == 11 || c as int == 12
    requires v == "" || (v[0] !in " \t\n\r" && v[0] as int != 11 && v[0] as int != 12)
    ensures DispositionText(header + (w + (form + (x + v)))) == Some(v)
  {
    hide SameLetter, SkipSpace;
    var rest := x + v;
    FormStart(form, rest);
    SpaceSkipped(w, form + rest);
    SpaceSkipped(x, v);
    Dropped(header, w + (form + rest), "content-disposition:");
    Dropped(form, rest, "form-data;");
  }

  lemma FormStart(form: string, rest: string)
    requires SameLetters(form, "form-data;")
    ensures var t := form + rest;
            t != "" && t[0] !in " \t\n\r" && t[0] as int != 11 && t[0] as int != 12
  {
    hide SameLetter;
    LowerIff(form[0], 'f');
    assert SameLetter(form[0], "form-data;"[0]);
  }

  lemma Dropped(a: string, rest: string, prefix: string)
    requires SameLetters(a, prefix)
    ensures DropPrefix(a + rest, prefix) == Some(rest)
  {
    hide SameLetters;
    PrefixIff(a + rest, prefix);
    assert |a| == |prefix| by { SameLength(a, prefix); }
    assert (a + rest)[..|prefix|] == a && (a + rest)[|prefix|..] == rest;
  }

  lemma SameLength(a: string, b: string)
    requires SameLetters(a, b)
    ensures |a| == |b|
  {
  }
}
