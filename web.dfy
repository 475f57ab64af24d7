/** ShortURL of web/url.go: a human readable form of a URL that drops the
    scheme, one leading `www.` and a leading `/` of the path, and truncates
    long results with `...`. Go's URL parser is not part of this model: it is
    the parameter `parse`, which yields the host and path of a URL, or None
    where net/url reports an error. */
module Web {

  import opened Wrappers
  import opened Bytes

  /** The two fields of a parsed URL that ShortURL reads. */
  datatype URL = URL(host: Bytes, path: Bytes)

  type Parser = Bytes -> Option<URL>

  const SchemeSep: Bytes := [58, 47, 47]                    // ://
  const HttpScheme: Bytes := [104, 116, 116, 112, 58, 47, 47] // http://
  const Slash: Bytes := [47]                                // /
  const WwwDot: Bytes := [119, 119, 119, 46]                // www.
  const Ellipsis: Bytes := [46, 46, 46]                     // ...

  /** strings.ToLower on one ASCII byte. */
  function LowerByte(b: byte): (r: byte)
    ensures 65 <= b <= 90 ==> r as int == b as int + 32
    ensures !(65 <= b <= 90) ==> r == b
  {
    if 65 <= b <= 90 then b + 32 else b
  }

  /** strings.ToLower on ASCII text: byte by byte, length kept. */
  function ToLower(s: Bytes): (r: Bytes)
    ensures |r| == |s|
    ensures forall i :: 0 <= i < |s| ==> r[i] == LowerByte(s[i])
  {
    seq(|s|, i requires 0 <= i < |s| => LowerByte(s[i]))
  }

  /** Lower-casing a concatenation lower-cases each part. */
  lemma ToLowerAppend(a: Bytes, b: Bytes)
    ensures ToLower(a + b) == ToLower(a) + ToLower(b)
  {
    assert forall i :: 0 <= i < |a| ==> (a + b)[i] == a[i];
    assert forall i :: |a| <= i < |a| + |b| ==> (a + b)[i] == b[i - |a|];
  }

  /** "ensure it has a protocol": a URL without `://` gets `http://` in front. */
  function WithScheme(u: Bytes): (r: Bytes)
    ensures Contains(r, SchemeSep)
    ensures Contains(u, SchemeSep) ==> r == u
    ensures !Contains(u, SchemeSep) ==> r == HttpScheme + u
  {
    if Contains(u, SchemeSep) then u
    else
      assert IsAt(HttpScheme + u, SchemeSep, 4);
      HttpScheme + u
  }

  /** No byte of `u` is a `:`. */
  predicate NoColon(u: Bytes)
  {
    forall i :: 0 <= i < |u| ==> u[i] != 58
  }

  /** A text without a `:` byte has no scheme separator. */
  lemma NoColonNoScheme(u: Bytes)
    requires NoColon(u)
    ensures !Contains(u, SchemeSep)
  {
    forall k ensures !IsAt(u, SchemeSep, k) {
      if 0 <= k && k + |SchemeSep| <= |u| {
        assert u[k..k + |SchemeSep|][0] == u[k];
      }
    }
  }

  lemma NoColonAppend(a: Bytes, b: Bytes)
    requires NoColon(a) && NoColon(b)
    ensures NoColon(a + b)
  {
    forall i | 0 <= i < |a + b| ensures (a + b)[i] != 58 {
      if i >= |a| {
        assert (a + b)[i] == b[i - |a|];
      }
    }
  }

  /** The shown host: the host without one leading `/`, and then without one
      leading `www.` in any letter case. What is shown is always a suffix of
      the host, at most five bytes shorter. */
  function DisplayHost(host: Bytes): (r: Bytes)
    ensures HasSuffix(host, r)
    ensures |host| - 5 <= |r| <= |host|
  {
    var h := TrimPrefix(host, Slash);
    if HasPrefix(ToLower(h), WwwDot) then h[4..] else h
  }

  /** One `www.`, whatever its letter case, is dropped from the host, with or
      without a leading `/`. */
  lemma DisplayHostStripsWww(w: Bytes, h: Bytes)
    requires |w| == 4 && ToLower(w) == WwwDot
    ensures DisplayHost(w + h) == h
    ensures DisplayHost(Slash + w + h) == h
  {
    ToLowerAppend(w, h);
    assert (w + h)[..4] == w;
    assert ToLower(w + h)[..4] == WwwDot;
    assert (w + h)[4..] == h;
    assert !HasPrefix(w + h, Slash) by {
      assert (w + h)[0] == w[0];
      assert LowerByte(w[0]) == 119;
    }
    assert Slash + w + h == Slash + (w + h);
  }

  /** Only one `www.` is dropped: a second one stays. */
  lemma DisplayHostStripsOnce(h: Bytes)
    ensures DisplayHost(WwwDot + WwwDot + h) == WwwDot + h
  {
    assert ToLower(WwwDot) == WwwDot;
    assert WwwDot + WwwDot + h == WwwDot + (WwwDot + h);
    DisplayHostStripsWww(WwwDot, WwwDot + h);
  }

  /** Only one leading `/` is dropped, and a host that starts neither with
      `/` nor with `www.` is shown as it is. */
  lemma DisplayHostKeeps(h: Bytes)
    requires !HasPrefix(h, Slash) && !HasPrefix(ToLower(h), WwwDot)
    ensures DisplayHost(h) == h
    ensures DisplayHost(Slash + h) == h
    ensures DisplayHost(Slash + Slash + h) == Slash + h
  {
    assert (Slash + h)[..1] == Slash;
    assert (Slash + h)[1..] == h;
    assert Slash + Slash + h == Slash + (Slash + h);
    assert (Slash + (Slash + h))[..1] == Slash;
    assert (Slash + (Slash + h))[1..] == Slash + h;
    assert ToLower(Slash + h)[0] == 47;
  }

  /** The untruncated result: the shown host, then `/` and the path without
      its leading `/` when that is not empty. */
  function Joined(url: URL): (r: Bytes)
    ensures HasPrefix(r, DisplayHost(url.host))
  {
    var host := DisplayHost(url.host);
    var path := TrimPrefix(url.path, Slash);
    if |path| > 0 then host + Slash + path else host
  }

  /** The path is shown after a single `/`, whether or not it had one, and
      an empty path (or a lone `/`) adds nothing. */
  lemma JoinedPath(host: Bytes, p: Bytes)
    requires !HasPrefix(p, Slash)
    ensures Joined(URL(host, p)) == Joined(URL(host, Slash + p))
    ensures p == [] ==> Joined(URL(host, p)) == DisplayHost(host)
    ensures p != [] ==> Joined(URL(host, p)) == DisplayHost(host) + Slash + p
  {
    assert (Slash + p)[..1] == Slash;
    assert (Slash + p)[1..] == p;
  }

  /** ShortURL. `maxlength < 4` panics in the source and is a precondition
      here. When the URL (with its scheme added) does not parse, it is
      returned as it is. Otherwise the result is the joined host and path,
      or, when that is longer than `maxlength`, its first `maxlength - 3`
      bytes followed by `...`, so that a parsed URL never gives more than
      `maxlength` bytes. */
  function ShortURL(parse: Parser, u: Bytes, maxlength: int): (r: Bytes)
    requires maxlength >= 4
    ensures parse(WithScheme(u)).None? ==> r == WithScheme(u)
    ensures parse(WithScheme(u)).Some? ==>
              var full := Joined(parse(WithScheme(u)).value);
              && |r| <= maxlength
              && (|full| <= maxlength ==> r == full)
              && (|full| > maxlength ==>
                    |r| == maxlength && r[..maxlength - 3] == full[..maxlength - 3]
                    && r[maxlength - 3..] == Ellipsis)
  {
    var withScheme := WithScheme(u);
    match parse(withScheme)
    case None => withScheme
    case Some(url) =>
      var host := Joined(url);
      if |host| > maxlength then host[..maxlength - 3] + Ellipsis else host
  }

  // The cases of web/url_test.go, each under the host and path net/url
  // yields for its input.

  const MatryerCom: Bytes := [109, 97, 116, 114, 121, 101, 114, 46, 99, 111, 109] // matryer.com
  const Something: Bytes := [115, 111, 109, 101, 116, 104, 105, 110, 103]        // something
  /** else/is/looking/pretty/long */
  const LongRest: Bytes := [101, 108, 115, 101, 47, 105, 115, 47, 108, 111, 111, 107, 105, 110, 103,
                            47, 112, 114, 101, 116, 116, 121, 47, 108, 111, 110, 103]

  /** The host net/url reports for the test URLs: www.matryer.com */
  function TestHost(): (r: Bytes)
    ensures DisplayHost(r) == MatryerCom
  {
    assert ToLower(WwwDot) == WwwDot;
    DisplayHostStripsWww(WwwDot, MatryerCom);
    WwwDot + MatryerCom
  }

  /** None of the parts of the test URLs holds a `:`. */
  lemma TestPartsNoColon()
    ensures NoColon(TestHost()) && NoColon(Slash) && NoColon(Something) && NoColon(LongRest)
  {
    assert NoColon(WwwDot);
    assert NoColon(MatryerCom);
    NoColonAppend(WwwDot, MatryerCom);
  }

  /** http://www.matryer.com/ shows as matryer.com */
  lemma ShortURLRootPath(parse: Parser)
    requires parse(HttpScheme + TestHost() + Slash) == Some(URL(TestHost(), Slash))
    ensures ShortURL(parse, HttpScheme + TestHost() + Slash, 35) == MatryerCom
  {
    var u := HttpScheme + TestHost() + Slash;
    assert IsAt(u, SchemeSep, 4);
    JoinedPath(TestHost(), []);
  }

  /** http://www.matryer.com/something shows as matryer.com/something */
  lemma ShortURLWithPath(parse: Parser)
    requires parse(HttpScheme + TestHost() + Slash + Something)
               == Some(URL(TestHost(), Slash + Something))
    ensures ShortURL(parse, HttpScheme + TestHost() + Slash + Something, 35)
              == MatryerCom + Slash + Something
  {
    var u := HttpScheme + TestHost() + Slash + Something;
    assert IsAt(u, SchemeSep, 4);
    JoinedPath(TestHost(), Something);
  }

  /** www.matryer.com/something, with no scheme, shows as
      matryer.com/something */
  lemma ShortURLNoScheme(parse: Parser)
    requires parse(HttpScheme + (TestHost() + Slash + Something))
               == Some(URL(TestHost(), Slash + Something))
    ensures ShortURL(parse, TestHost() + Slash + Something, 35)
              == MatryerCom + Slash + Something
  {
    var u := TestHost() + Slash + Something;
    assert !Contains(u, SchemeSep) by {
      TestPartsNoColon();
      NoColonAppend(TestHost(), Slash);
      NoColonAppend(TestHost() + Slash, Something);
      NoColonNoScheme(u);
    }
    assert Joined(URL(TestHost(), Slash + Something)) == MatryerCom + Slash + Something by {
      JoinedPath(TestHost(), Something);
    }
  }

  /** www.matryer.com/something/else/is/looking/pretty/long is truncated to
      matryer.com/something/else/is/lo... */
  lemma ShortURLTruncated(parse: Parser)
    requires parse(HttpScheme + (TestHost() + Slash + Something + Slash + LongRest))
               == Some(URL(TestHost(), Slash + Something + Slash + LongRest))
    ensures ShortURL(parse, TestHost() + Slash + Something + Slash + LongRest, 35)
              == MatryerCom + Slash + Something + Slash + LongRest[..10] + Ellipsis
  {
    var u := TestHost() + Slash + Something + Slash + LongRest;
    assert !Contains(u, SchemeSep) by {
      TestPartsNoColon();
      NoColonAppend(TestHost(), Slash);
      NoColonAppend(TestHost() + Slash, Something);
      NoColonAppend(TestHost() + Slash + Something, Slash);
      NoColonAppend(TestHost() + Slash + Something + Slash, LongRest);
      NoColonNoScheme(u);
    }
    var p := Something + Slash + LongRest;
    var head := MatryerCom + Slash + Something + Slash;
    assert Joined(URL(TestHost(), Slash + Something + Slash + LongRest)) == head + LongRest by {
      assert Slash + Something + Slash + LongRest == Slash + p;
      JoinedPath(TestHost(), p);
      AppendAssoc4(MatryerCom + Slash, Something, Slash, LongRest);
    }
    CutAfter(head, LongRest, 10);
  }

  lemma AppendAssoc4(a: Bytes, b: Bytes, c: Bytes, d: Bytes)
    ensures a + (b + c + d) == a + b + c + d
  {
  }

  /** The first `|a| + j` bytes of `a + b` are `a` and the first `j` of `b`. */
  lemma CutAfter(a: Bytes, b: Bytes, j: nat)
    requires j <= |b|
    ensures (a + b)[..|a| + j] == a + b[..j]
  {
  }
}
