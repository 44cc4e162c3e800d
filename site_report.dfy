/**
 * The report block of functions/api/site-info.js: the `info` object built
 * from the parsed target URL, the elapsed time and the HEAD response, and
 * the rule that turns a header name into its display name.
 */
module SiteReport {
  import opened Wrappers
  import opened Strings
  import opened JsonValues

  /** A word with its first character upper-cased: `word.charAt(0).toUpperCase() + word.slice(1)`. */
  function Capitalize(word: string): (r: string)
    ensures |r| == |word|
    ensures forall i :: 0 < i < |word| ==> r[i] == word[i]
    ensures |word| > 0 ==> r[0] == AsciiUpper(word[0])
  {
    if word == [] then [] else [AsciiUpper(word[0])] + word[1..]
  }

  /** `words.map(Capitalize)`. */
  function CapitalizeAll(words: seq<string>): (r: seq<string>)
    ensures |r| == |words|
    ensures forall i :: 0 <= i < |words| ==> r[i] == Capitalize(words[i])
  {
    if words == [] then [] else [Capitalize(words[0])] + CapitalizeAll(words[1..])
  }

  /** `header.split('-').map(Capitalize).join('-')`. */
  function DisplayName(header: string): string
  {
    Join(CapitalizeAll(Split(header, '-')), '-')
  }

  /**
   * The display-name rule stated character by character: `r` is `s` with
   * the first character and every character right after a '-' upper-cased.
   */
  predicate IsTitleCaseOf(r: string, s: string)
  {
    |r| == |s| &&
    forall i :: 0 <= i < |s| ==> r[i] == if i == 0 || s[i - 1] == '-' then AsciiUpper(s[i]) else s[i]
  }

  lemma JoinCons(x: string, rest: seq<string>, sep: char)
    requires |rest| >= 1
    ensures Join([x] + rest, sep) == x + [sep] + Join(rest, sep)
  {
    assert ([x] + rest)[1..] == rest;
  }

  /** Split, map and join compute the character-by-character rule. */
  lemma {:induction false} DisplayNameIsTitleCase(s: string)
    ensures IsTitleCaseOf(DisplayName(s), s)
    decreases |s|
  {
    if '-' in s {
      var k := IndexOf(s, '-');
      var a, b := s[..k], s[k + 1..];
      var rest := Split(b, '-');
      assert Split(s, '-') == [a] + rest;
      assert CapitalizeAll([a] + rest) == [Capitalize(a)] + CapitalizeAll(rest);
      JoinCons(Capitalize(a), CapitalizeAll(rest), '-');
      var r := DisplayName(s);
      var tail := DisplayName(b);
      assert r == Capitalize(a) + ['-'] + tail;
      DisplayNameIsTitleCase(b);
      forall i | 0 <= i < |s|
        ensures r[i] == if i == 0 || s[i - 1] == '-' then AsciiUpper(s[i]) else s[i]
      {
        if i < k {
          assert s[i] == a[i];
          if i > 0 {
            assert s[i - 1] == a[i - 1];
          }
        } else if i > k {
          assert r[i] == tail[i - k - 1] && s[i] == b[i - k - 1];
          if i > k + 1 {
            assert s[i - 1] == b[i - k - 2];
          }
        }
      }
    } else {
      assert Split(s, '-') == [s];
      var r := DisplayName(s);
      assert r == Capitalize(s);
      forall i | 0 <= i < |s| ensures s[i] != '-' {
        assert s[i] in s;
      }
    }
  }

  /** The character-by-character rule leaves one result only. */
  lemma TitleCaseUnique(r1: string, r2: string, s: string)
    requires IsTitleCaseOf(r1, s) && IsTitleCaseOf(r2, s)
    ensures r1 == r2
  {
    forall i | 0 <= i < |s|
      ensures r1[i] == r2[i]
    {
      TitleCaseAt(r1, s, i);
      TitleCaseAt(r2, s, i);
    }
  }

  lemma TitleCaseAt(r: string, s: string, i: int)
    requires IsTitleCaseOf(r, s) && 0 <= i < |s|
    ensures r[i] == if i == 0 || s[i - 1] == '-' then AsciiUpper(s[i]) else s[i]
  {
  }

  /** The display name of `s` is exactly the string that title-cases `s`. */
  lemma DisplayNameCharacterised(s: string, r: string)
    ensures DisplayName(s) == r <==> IsTitleCaseOf(r, s)
  {
    DisplayNameIsTitleCase(s);
    if IsTitleCaseOf(r, s) {
      TitleCaseUnique(DisplayName(s), r, s);
    }
  }

  /** Display names keep the length and every hyphen, and change no other character into one. */
  lemma DisplayNameShape(s: string)
    ensures |DisplayName(s)| == |s|
    ensures |s| > 0 ==> DisplayName(s)[0] == AsciiUpper(s[0])
    ensures forall i :: 0 <= i < |s| ==> (DisplayName(s)[i] == '-' <==> s[i] == '-')
    ensures forall i :: 0 <= i < |s| ==> (DisplayName(s)[i] == ' ' <==> s[i] == ' ')
  {
    var r := DisplayName(s);
    DisplayNameIsTitleCase(s);
    forall i | 0 <= i < |s|
      ensures (r[i] == '-' <==> s[i] == '-') && (r[i] == ' ' <==> s[i] == ' ')
    {
      assert r[i] == if i == 0 || s[i - 1] == '-' then AsciiUpper(s[i]) else s[i];
    }
  }

  lemma {:induction false} CountMatching(r: string, s: string, c: char)
    requires |r| == |s|
    requires forall i :: 0 <= i < |s| ==> (r[i] == c <==> s[i] == c)
    ensures Count(r, c) == Count(s, c)
  {
    if s != [] {
      CountMatching(r[1..], s[1..], c);
    }
  }

  /** The rule keeps the number of hyphens, hence the number of words. */
  lemma DisplayNameKeepsHyphens(s: string)
    ensures |DisplayName(s)| == |s|
    ensures Count(DisplayName(s), '-') == Count(s, '-')
  {
    DisplayNameShape(s);
    CountMatching(DisplayName(s), s, '-');
  }

  /** A display name is its own display name. */
  lemma DisplayNameIdempotent(s: string)
    ensures DisplayName(DisplayName(s)) == DisplayName(s)
  {
    var r := DisplayName(s);
    DisplayNameIsTitleCase(s);
    DisplayNameShape(s);
    forall i | 0 <= i < |r|
      ensures r[i] == if i == 0 || r[i - 1] == '-' then AsciiUpper(r[i]) else r[i]
    {
      assert r[i] == if i == 0 || s[i - 1] == '-' then AsciiUpper(s[i]) else s[i];
      if i > 0 {
        assert r[i - 1] == '-' <==> s[i - 1] == '-';
      }
    }
    DisplayNameCharacterised(r, r);
  }

  lemma EtagExample()
    ensures DisplayName("etag") == "Etag"
  {
    DisplayNameCharacterised("etag", "Etag");
  }
  /** Each hyphen-separated word is capitalised on its own. */
  lemma DisplayNameOfWords(word: string, rest: string)
    requires '-' !in word
    ensures DisplayName(word + ['-'] + rest) == Capitalize(word) + ['-'] + DisplayName(rest)
  {
    SplitAt(word, rest, '-');
    assert CapitalizeAll([word] + Split(rest, '-')) == [Capitalize(word)] + CapitalizeAll(Split(rest, '-'));
    JoinCons(Capitalize(word), CapitalizeAll(Split(rest, '-')), '-');
  }


  /** A word without hyphens is only capitalised. */
  lemma DisplayNameOfWord(word: string, name: string)
    requires '-' !in word && name == Capitalize(word)
    ensures DisplayName(word) == name
  {
    assert Split(word, '-') == [word];
  }

  /** The display name of `word-rest`, from that of `rest`. */
  lemma DisplayNameOfFirstWord(s: string, word: string, rest: string, name: string, restName: string)
    requires '-' !in word && s == word + "-" + rest
    requires DisplayName(rest) == restName && name == Capitalize(word) + "-" + restName
    ensures DisplayName(s) == name
  {
    DisplayNameOfWords(word, rest);
  }

  lemma FrameOptionsName()
    ensures DisplayName("frame-options") == "Frame-Options"
  {
    DisplayNameOfWord("options", "Options");
    DisplayNameOfFirstWord("frame-options", "frame", "options", "Frame-Options", "Options");
  }

  lemma XFrameOptionsText()
    ensures "x-frame-options" == "x" + "-" + "frame-options"
    ensures "X-Frame-Options" == Capitalize("x") + "-" + "Frame-Options"
  {
  }

  lemma XFrameOptionsExample()
    ensures DisplayName("x-frame-options") == "X-Frame-Options"
  {
    FrameOptionsName();
    XFrameOptionsText();
    DisplayNameOfFirstWord("x-frame-options", "x", "frame-options", "X-Frame-Options", "Frame-Options");
  }

  // ---------------------------------------------------------------------
  // The report (`info`)
  // ---------------------------------------------------------------------

  /** The fields of the parsed target `URL` the report reads. */
  datatype Url = Url(href: string, protocol: string, hostname: string, port: string)

  /** `response.cf`: the connection facts Cloudflare attaches, each possibly unset. */
  datatype CfProperties = CfProperties(tlsVersion: Option<string>, tlsCipher: Option<string>, colo: Option<string>)

  /** The HEAD response: status, headers by lower-case name, and `cf` when the platform sets it. */
  datatype HeadResponse = HeadResponse(status: int, headers: map<string, string>, cf: Option<CfProperties>)

  /** `headersToExtract`, in order. */
  const AllowList: seq<string> := [
    "content-type", "content-length", "content-encoding", "cache-control",
    "expires", "last-modified", "etag", "strict-transport-security",
    "x-frame-options", "x-content-type-options", "content-security-policy",
    "x-powered-by", "cf-ray", "cf-cache-status"]

  /** The five keys of the object literal that starts the report. */
  const FixedKeys: seq<string> := ["Server Hostname", "Server Port", "Protocol", "Response Time", "Status Code"]

  const ServerKey: string := "Server Software"

  const CfKeys: seq<string> := ["TLS Version", "TLS Cipher", "Cloudflare Data Center"]

  /** `response.headers.get(name)`: `None` for `null`. */
  function HeaderValue(resp: HeadResponse, name: string): (v: Option<string>)
    ensures v.Some? <==> name in resp.headers
  {
    if name in resp.headers then Some(resp.headers[name]) else None
  }

  /** A header or `cf` value that passes `if (value)`: set and not the empty string. */
  predicate Present(v: Option<string>)
  {
    v.Some? && v.value != ""
  }

  /** `targetUrl.port || (targetUrl.protocol === 'https:' ? '443' : '80')`. */
  function PortText(url: Url): (r: string)
    ensures r != ""
    ensures url.port != "" ==> r == url.port
    ensures url.port == "" ==> (r == "443" <==> url.protocol == "https:") && (r == "80" <==> url.protocol != "https:")
  {
    if url.port != "" then url.port else if url.protocol == "https:" then "443" else "80"
  }

  /** `targetUrl.protocol.replace(':', '')`. */
  function ProtocolText(url: Url): string
  {
    RemoveFirst(url.protocol, ':')
  }

  /** `` `${responseTime}ms` ``. */
  function ResponseTimeText(elapsed: int): string
  {
    IntText(elapsed) + "ms"
  }

  /** For a protocol such as "https:" the report shows the scheme without its colon. */
  lemma ProtocolIsScheme(url: Url, scheme: string)
    requires url.protocol == scheme + [':'] && ':' !in scheme
    ensures ProtocolText(url) == scheme
  {
    RemoveFirstOf(scheme, "", ':');
    assert scheme + [':'] + "" == scheme + [':'];
    assert scheme + "" == scheme;
  }

  /** A measured time reads as its decimal digits followed by "ms". */
  lemma ResponseTimeReadsBack(elapsed: nat)
    ensures var t := ResponseTimeText(elapsed);
      |t| > 2 && t[|t| - 2..] == "ms" && IsDigits(t[..|t| - 2]) && DigitsValue(t[..|t| - 2]) == elapsed
  {
    NatTextValue(elapsed);
    var t := ResponseTimeText(elapsed);
    assert t[..|t| - 2] == NatText(elapsed);
  }

  /** The object literal the report starts from (lines 67-73). */
  function FixedEntries(url: Url, elapsed: int, status: int): (m: seq<Member>)
    ensures Keys(m) == FixedKeys
  {
    [("Server Hostname", JString(url.hostname)),
     ("Server Port", JString(PortText(url))),
     ("Protocol", JString(ProtocolText(url))),
     ("Response Time", JString(ResponseTimeText(elapsed))),
     ("Status Code", JNumber(status as real))]
  }

  /** A report entry that may be added: its key and the value it would take. */
  type Candidate = (string, Option<string>)

  /** The display names of `names`, in order. */
  function Names(names: seq<string>): (r: seq<string>)
    ensures |r| == |names|
    ensures forall i :: 0 <= i < |names| ==> r[i] == DisplayName(names[i])
  {
    seq(|names|, i requires 0 <= i < |names| => DisplayName(names[i]))
  }

  /** The keys the report may add after the fixed ones, in the order the code tries them. */
  function CandidateKeys(): seq<string>
  {
    [ServerKey] + Names(AllowList) + CfKeys
  }

  /** Every key the report can hold, in the only order it can hold them. */
  function ReportKeys(): seq<string>
  {
    FixedKeys + CandidateKeys()
  }

  function HeaderCandidates(resp: HeadResponse, names: seq<string>): (cs: seq<Candidate>)
    ensures |cs| == |names|
    ensures forall i :: 0 <= i < |names| ==> cs[i] == (DisplayName(names[i]), HeaderValue(resp, names[i]))
  {
    seq(|names|, i requires 0 <= i < |names| => (DisplayName(names[i]), HeaderValue(resp, names[i])))
  }

  /** The three `cf` fields; without `cf` none of them is set. */
  function CfCandidates(cf: Option<CfProperties>): (cs: seq<Candidate>)
    ensures |cs| == 3
    ensures forall i :: 0 <= i < 3 ==> cs[i].0 == CfKeys[i]
  {
    match cf
    case None => [(CfKeys[0], None), (CfKeys[1], None), (CfKeys[2], None)]
    case Some(c) => [(CfKeys[0], c.tlsVersion), (CfKeys[1], c.tlsCipher), (CfKeys[2], c.colo)]
  }

  /** Every conditional entry, with the value it would take, in the order the code tries them. */
  function Candidates(resp: HeadResponse): (cs: seq<Candidate>)
    ensures |cs| == |CandidateKeys()|
  {
    [(ServerKey, HeaderValue(resp, "server"))] + HeaderCandidates(resp, AllowList) + CfCandidates(resp.cf)
  }

  /** Whatever the response, the candidates carry the possible keys, in order. */
  lemma CandidatesKeys(resp: HeadResponse)
    ensures |Candidates(resp)| == |CandidateKeys()|
    ensures forall j :: 0 <= j < |CandidateKeys()| ==> Candidates(resp)[j].0 == CandidateKeys()[j]
  {
    CandidatesKeysFor(resp, AllowList);
  }

  lemma CandidatesKeysFor(resp: HeadResponse, names: seq<string>)
    ensures var cs, ks := [(ServerKey, HeaderValue(resp, "server"))] + HeaderCandidates(resp, names) + CfCandidates(resp.cf),
                          [ServerKey] + Names(names) + CfKeys;
      |cs| == |ks| && forall j :: 0 <= j < |ks| ==> cs[j].0 == ks[j]
  {
    var hs := HeaderCandidates(resp, names);
    var cs := [(ServerKey, HeaderValue(resp, "server"))] + hs + CfCandidates(resp.cf);
    var ks := [ServerKey] + Names(names) + CfKeys;
    forall j | 0 <= j < |ks|
      ensures cs[j].0 == ks[j]
    {
      if 1 <= j <= |names| {
        assert cs[j] == hs[j - 1];
        assert ks[j] == Names(names)[j - 1];
      } else if j > |names| {
        assert cs[j] == CfCandidates(resp.cf)[j - 1 - |names|];
        assert ks[j] == CfKeys[j - 1 - |names|];
      }
    }
  }

  /** The entry a candidate contributes: one member when its value is present, none otherwise. */
  function Pick(c: Candidate): seq<Member>
  {
    if Present(c.1) then [(c.0, JString(c.1.value))] else []
  }

  /** The entries of the present candidates, in candidate order. */
  function Selected(cs: seq<Candidate>): seq<Member>
  {
    if cs == [] then [] else Selected(cs[..|cs| - 1]) + Pick(cs[|cs| - 1])
  }

  /**
   * The report of lines 67-120: the fixed entries, then one entry for each
   * present candidate, in candidate order.
   */
  function Report(url: Url, elapsed: int, resp: HeadResponse): seq<Member>
  {
    FixedEntries(url, elapsed, resp.status) + Selected(Candidates(resp))
  }

  // ---------------------------------------------------------------------
  // Keys of the report are pairwise different
  // ---------------------------------------------------------------------

  predicate Distinct(s: seq<string>)
  {
    forall i, j :: 0 <= i < j < |s| ==> s[i] != s[j]
  }

  /** A header name as `Headers` stores it: lower-case letters and hyphens. */
  predicate Lowercase(name: string)
  {
    forall k :: 0 <= k < |name| ==> 'a' <= name[k] <= 'z' || name[k] == '-'
  }

  predicate AllLowercase(names: seq<string>)
  {
    forall i :: 0 <= i < |names| ==> Lowercase(names[i])
  }

  /** Lower-casing undoes the rule on a lower-case letter or a hyphen. */
  lemma LowerOfTitle(c: char, capitalise: bool)
    requires 'a' <= c <= 'z' || c == '-'
    ensures AsciiLower(if capitalise then AsciiUpper(c) else c) == c
  {
  }

  /** Different lower-case header names have different display names. */
  lemma DisplayNameInjective(a: string, b: string)
    requires Lowercase(a) && Lowercase(b)
    requires DisplayName(a) == DisplayName(b)
    ensures a == b
  {
    DisplayNameIsTitleCase(a);
    DisplayNameIsTitleCase(b);
    forall k | 0 <= k < |a|
      ensures a[k] == b[k]
    {
      var r := DisplayName(a);
      var capA, capB := k == 0 || a[k - 1] == '-', k == 0 || b[k - 1] == '-';
      assert r[k] == if capA then AsciiUpper(a[k]) else a[k];
      assert r[k] == if capB then AsciiUpper(b[k]) else b[k];
      LowerOfTitle(a[k], capA);
      LowerOfTitle(b[k], capB);
    }
  }

  lemma NamesDistinct(names: seq<string>)
    requires AllLowercase(names) && Distinct(names)
    ensures Distinct(Names(names))
  {
    forall i, j | 0 <= i < j < |names|
      ensures DisplayName(names[i]) != DisplayName(names[j])
    {
      if DisplayName(names[i]) == DisplayName(names[j]) {
        DisplayNameInjective(names[i], names[j]);
      }
    }
  }

  /** Each of `others` holds a space or has a length none of `names` has. */
  predicate SpacedOrSized(names: seq<string>, others: seq<string>)
  {
    forall i, k :: 0 <= i < |names| && 0 <= k < |others| ==> ' ' in others[k] || |others[k]| != |names[i]|
  }

  lemma NamesAvoid(names: seq<string>, others: seq<string>)
    requires AllLowercase(names) && SpacedOrSized(names, others)
    ensures forall i, k :: 0 <= i < |names| && 0 <= k < |others| ==> Names(names)[i] != others[k]
  {
    forall i, k | 0 <= i < |names| && 0 <= k < |others|
      ensures DisplayName(names[i]) != others[k]
    {
      DisplayNameShape(names[i]);
      if ' ' in others[k] {
        var p :| 0 <= p < |others[k]| && others[k][p] == ' ';
        if p < |names[i]| {
          assert names[i][p] != ' ';
        }
      }
    }
  }

  lemma DistinctInsert(a: seq<string>, b: seq<string>, c: seq<string>)
    requires Distinct(a + c) && Distinct(b)
    requires forall i, k :: 0 <= i < |b| && 0 <= k < |a + c| ==> b[i] != (a + c)[k]
    ensures Distinct(a + b + c)
  {
    var s := a + b + c;
    var ac := a + c;
    forall i | 0 <= i < |s|
      ensures s[i] == if i < |a| then ac[i] else if i < |a| + |b| then b[i - |a|] else ac[i - |b|]
    {
    }
    forall i, j | 0 <= i < j < |s|
      ensures s[i] != s[j]
    {
      var inB := |a| <= i < |a| + |b|;
      var jnB := |a| <= j < |a| + |b|;
      if inB && jnB {
        assert b[i - |a|] != b[j - |a|];
      } else if inB {
        var j' := if j < |a| then j else j - |b|;
        assert s[j] == ac[j'] && b[i - |a|] != ac[j'];
      } else if jnB {
        var i' := if i < |a| then i else i - |b|;
        assert s[i] == ac[i'] && b[j - |a|] != ac[i'];
      } else {
        var i' := if i < |a| then i else i - |b|;
        var j' := if j < |a| then j else j - |b|;
        assert i' < j' && ac[i'] != ac[j'];
      }
    }
  }

  lemma AllowListLowercase1()
    ensures AllLowercase(AllowList[..5])
  {
  }

  lemma AllowListLowercase2()
    ensures AllLowercase(AllowList[5..9])
  {
  }

  lemma AllowListLowercase3()
    ensures AllLowercase(AllowList[9..])
  {
  }

  lemma AllowListLowercase()
    ensures AllLowercase(AllowList)
  {
    AllowListLowercase1();
    AllowListLowercase2();
    AllowListLowercase3();
    forall i | 0 <= i < |AllowList|
      ensures Lowercase(AllowList[i])
    {
      if i < 5 {
        assert AllowList[i] == AllowList[..5][i];
      } else if i < 9 {
        assert AllowList[i] == AllowList[5..9][i - 5];
      } else {
        assert AllowList[i] == AllowList[9..][i - 9];
      }
    }
  }

  lemma AllowListShape()
    ensures Distinct(AllowList)
    ensures SpacedOrSized(AllowList, FixedKeys + [ServerKey] + CfKeys)
  {
  }

  lemma LiteralKeysDistinct()
    ensures Distinct(FixedKeys + [ServerKey] + CfKeys)
  {
  }

  /** The 23 possible keys of a report are pairwise different. */
  lemma ReportKeysDistinct()
    ensures Distinct(ReportKeys())
  {
    var a := FixedKeys + [ServerKey];
    AllowListLowercase();
    AllowListShape();
    LiteralKeysDistinct();
    NamesDistinct(AllowList);
    NamesAvoid(AllowList, a + CfKeys);
    DistinctInsert(a, Names(AllowList), CfKeys);
    assert ReportKeys() == a + Names(AllowList) + CfKeys;
  }

  // ---------------------------------------------------------------------
  // What the report holds
  // ---------------------------------------------------------------------

  /** The positions of the present candidates, in increasing order, and all of them. */
  function PresentIndices(cs: seq<Candidate>): (idx: seq<nat>)
    ensures forall k :: 0 <= k < |idx| ==> idx[k] < |cs| && Present(cs[idx[k]].1)
    ensures forall k, l :: 0 <= k < l < |idx| ==> idx[k] < idx[l]
    ensures forall j :: 0 <= j < |cs| && Present(cs[j].1) ==> j in idx
  {
    if cs == [] then []
    else
      var front := cs[..|cs| - 1];
      assert forall j :: 0 <= j < |front| ==> front[j] == cs[j];
      PresentIndices(front) + (if Present(cs[|cs| - 1].1) then [|cs| - 1] else [])
  }

  /** The entries `Selected` keeps are those of the present candidates, in order. */
  lemma {:induction false} SelectedEntries(cs: seq<Candidate>)
    ensures |Selected(cs)| == |PresentIndices(cs)|
    ensures forall k :: 0 <= k < |PresentIndices(cs)| ==>
      var c := cs[PresentIndices(cs)[k]];
      Selected(cs)[k] == (c.0, JString(c.1.value))
  {
    if cs != [] {
      var front := cs[..|cs| - 1];
      SelectedEntries(front);
      assert forall j :: 0 <= j < |front| ==> front[j] == cs[j];
    }
  }

  lemma KeysConcat(a: seq<Member>, b: seq<Member>)
    ensures Keys(a + b) == Keys(a) + Keys(b)
  {
  }

  /**
   * The report holds the five fixed entries, then one entry per present
   * candidate, under the candidate's key and in candidate order.
   */
  lemma ReportEntries(url: Url, elapsed: int, resp: HeadResponse)
    ensures var r, idx := Report(url, elapsed, resp), PresentIndices(Candidates(resp));
      |r| == |FixedKeys| + |idx| &&
      r[..|FixedKeys|] == FixedEntries(url, elapsed, resp.status) &&
      forall k :: 0 <= k < |idx| ==>
        r[|FixedKeys| + k] == (CandidateKeys()[idx[k]], JString(Candidates(resp)[idx[k]].1.value))
  {
    var cs, f := Candidates(resp), FixedEntries(url, elapsed, resp.status);
    var idx := PresentIndices(cs);
    CandidatesKeys(resp);
    AfterFixed(f, cs);
    forall k | 0 <= k < |idx|
      ensures cs[idx[k]].0 == CandidateKeys()[idx[k]]
    {
    }
  }

  lemma AfterFixed(f: seq<Member>, cs: seq<Candidate>)
    ensures var r, idx := f + Selected(cs), PresentIndices(cs);
      |r| == |f| + |idx| && r[..|f|] == f &&
      forall k :: 0 <= k < |idx| ==> r[|f| + k] == (cs[idx[k]].0, JString(cs[idx[k]].1.value))
  {
    SelectedEntries(cs);
  }

  /** No name occurs twice in a report. */
  lemma ReportDistinctKeys(url: Url, elapsed: int, resp: HeadResponse)
    ensures DistinctKeys(Report(url, elapsed, resp))
  {
    var r, idx := Report(url, elapsed, resp), PresentIndices(Candidates(resp));
    var n := |FixedKeys|;
    ReportEntries(url, elapsed, resp);
    ReportKeysDistinct();
    assert forall k :: 0 <= k < n ==> r[k].0 == ReportKeys()[k];
    assert forall k :: 0 <= k < |idx| ==> r[n + k].0 == ReportKeys()[n + idx[k]];
    forall i, j | 0 <= i < j < |r|
      ensures r[i].0 != r[j].0
    {
      var i' := if i < n then i else n + idx[i - n];
      var j' := if j < n then j else n + idx[j - n];
      assert r[i].0 == ReportKeys()[i'] && r[j].0 == ReportKeys()[j'];
      assert i' < j';
    }
  }

  /** Every fixed key is always present, with its value. */
  lemma ReportFixedLookup(url: Url, elapsed: int, resp: HeadResponse, k: int)
    requires 0 <= k < |FixedKeys|
    ensures Get(Report(url, elapsed, resp), FixedKeys[k]) == Some(FixedEntries(url, elapsed, resp.status)[k].1)
  {
    var r := Report(url, elapsed, resp);
    ReportDistinctKeys(url, elapsed, resp);
    assert r[k] == FixedEntries(url, elapsed, resp.status)[k];
    GetDistinct(r, k);
  }

  /**
   * A conditional key is present exactly when its source value is set and
   * not empty, and then it holds that value.
   */
  lemma ReportLookup(url: Url, elapsed: int, resp: HeadResponse, j: int)
    requires 0 <= j < |CandidateKeys()|
    ensures var v := Candidates(resp)[j].1;
      Get(Report(url, elapsed, resp), CandidateKeys()[j]) == if Present(v) then Some(JString(v.value)) else None
  {
    var r, cs, idx := Report(url, elapsed, resp), Candidates(resp), PresentIndices(Candidates(resp));
    var n := |FixedKeys|;
    ReportEntries(url, elapsed, resp);
    ReportDistinctKeys(url, elapsed, resp);
    ReportKeysDistinct();
    CandidatesKeys(resp);
    var key := CandidateKeys()[j];
    assert key == ReportKeys()[n + j];
    if Present(cs[j].1) {
      var k :| 0 <= k < |idx| && idx[k] == j;
      GetDistinct(r, n + k);
    } else {
      forall p | 0 <= p < |r|
        ensures r[p].0 != key
      {
        if p < n {
          assert r[p].0 == ReportKeys()[p];
        } else {
          assert r[p].0 == ReportKeys()[n + idx[p - n]];
          assert idx[p - n] != j;
        }
      }
      assert key !in Keys(r);
    }
  }

  /** Names outside the 23 possible keys never appear. */
  lemma ReportOtherKeys(url: Url, elapsed: int, resp: HeadResponse, key: string)
    requires key !in ReportKeys()
    ensures Get(Report(url, elapsed, resp), key) == None
  {
    var f, cs := FixedEntries(url, elapsed, resp.status), Candidates(resp);
    CandidatesKeys(resp);
    assert forall j :: 0 <= j < |cs| ==> cs[j].0 in CandidateKeys();
    SelectedKeysAmong(cs, CandidateKeys());
    assert KeysAmong(f, FixedKeys);
    KeysAmongConcat(f, Selected(cs), FixedKeys, CandidateKeys());
    NotAmong(f + Selected(cs), ReportKeys(), key);
  }

  // ---------------------------------------------------------------------
  // Building the report step by step (lines 67-120)
  // ---------------------------------------------------------------------

  /** The members of `m` are all named from `ks`. */
  predicate KeysAmong(m: seq<Member>, ks: seq<string>)
  {
    forall p :: 0 <= p < |m| ==> m[p].0 in ks
  }

  lemma {:induction false} SelectedConcat(a: seq<Candidate>, b: seq<Candidate>)
    ensures Selected(a + b) == Selected(a) + Selected(b)
    decreases |b|
  {
    if b == [] {
      assert a + b == a;
    } else {
      var front := b[..|b| - 1];
      DropLast(a, b);
      SelectedConcat(a, front);
      AppendAssoc(Selected(a), Selected(front), Pick(b[|b| - 1]));
    }
  }

  lemma DropLast(a: seq<Candidate>, b: seq<Candidate>)
    requires b != []
    ensures (a + b)[..|a + b| - 1] == a + b[..|b| - 1]
    ensures (a + b)[|a + b| - 1] == b[|b| - 1]
  {
  }

  /** Only the keys of the candidates can occur among the entries `Selected` keeps. */
  lemma SelectedKeysAmong(cs: seq<Candidate>, ks: seq<string>)
    requires forall j :: 0 <= j < |cs| ==> cs[j].0 in ks
    ensures KeysAmong(Selected(cs), ks)
  {
    SelectedEntries(cs);
  }

  lemma KeysAmongConcat(a: seq<Member>, b: seq<Member>, ks: seq<string>, ks': seq<string>)
    requires KeysAmong(a, ks) && KeysAmong(b, ks')
    ensures KeysAmong(a + b, ks + ks')
  {
    forall p | 0 <= p < |a + b|
      ensures (a + b)[p].0 in ks + ks'
    {
      if p >= |a| {
        assert (a + b)[p] == b[p - |a|];
      }
    }
  }

  lemma NotAmong(m: seq<Member>, ks: seq<string>, key: string)
    requires KeysAmong(m, ks) && key !in ks
    ensures key !in Keys(m)
  {
  }

  /** In a list without repetitions, no element occurs before its own position. */
  lemma DistinctPrefix(s: seq<string>, n: int, j: int)
    requires Distinct(s) && 0 <= n <= j < |s|
    ensures s[j] !in s[..n]
  {
  }

  /**
   * One iteration of the `forEach`: `Put` appends the display name of
   * `names[i]` and its value when the value is present, and it is new.
   */
  lemma HeaderStep(info0: seq<Member>, resp: HeadResponse, names: seq<string>, i: int)
    requires 0 <= i < |names|
    requires Distinct(Names(names))
    requires forall k :: 0 <= k < |names| ==> DisplayName(names[k]) !in Keys(info0)
    ensures var info, value := info0 + Selected(HeaderCandidates(resp, names[..i])), HeaderValue(resp, names[i]);
      (if Present(value) then Put(info, DisplayName(names[i]), JString(value.value)) else info)
      == info0 + Selected(HeaderCandidates(resp, names[..i + 1]))
  {
    var before := HeaderCandidates(resp, names[..i]);
    var c := (DisplayName(names[i]), HeaderValue(resp, names[i]));
    HeaderCandidatesSnoc(resp, names, i);
    SelectedSnoc(before, c);
    HeaderKeyFresh(info0, resp, names, i);
    PutFresh(info0 + Selected(before), c);
    AppendAssoc(info0, Selected(before), Pick(c));
  }

  lemma HeaderCandidatesSnoc(resp: HeadResponse, names: seq<string>, i: int)
    requires 0 <= i < |names|
    ensures HeaderCandidates(resp, names[..i + 1])
         == HeaderCandidates(resp, names[..i]) + [(DisplayName(names[i]), HeaderValue(resp, names[i]))]
  {
  }

  /** The display name of `names[i]` is new after the entries of the earlier names. */
  lemma HeaderKeyFresh(info0: seq<Member>, resp: HeadResponse, names: seq<string>, i: int)
    requires 0 <= i < |names|
    requires Distinct(Names(names))
    requires DisplayName(names[i]) !in Keys(info0)
    ensures DisplayName(names[i]) !in Keys(info0 + Selected(HeaderCandidates(resp, names[..i])))
  {
    var before := HeaderCandidates(resp, names[..i]);
    var keys := Names(names)[..i];
    forall j | 0 <= j < |before|
      ensures before[j].0 in keys
    {
      assert before[j].0 == keys[j];
    }
    SelectedKeysAmong(before, keys);
    DistinctPrefix(Names(names), i, i);
    NotAmong(Selected(before), keys, DisplayName(names[i]));
    KeysConcat(info0, Selected(before));
  }

  /** The `headersToExtract.forEach` loop (lines 99-107) over any list of names. */
  method AddHeaders(info0: seq<Member>, resp: HeadResponse, names: seq<string>) returns (info: seq<Member>)
    requires Distinct(Names(names))
    requires forall k :: 0 <= k < |names| ==> DisplayName(names[k]) !in Keys(info0)
    ensures info == info0 + Selected(HeaderCandidates(resp, names))
  {
    info := info0;
    assert HeaderCandidates(resp, names[..0]) == [];
    var i := 0;
    while i < |names|
      invariant 0 <= i <= |names|
      invariant info == info0 + Selected(HeaderCandidates(resp, names[..i]))
    {
      var header := names[i];
      var value := HeaderValue(resp, header);
      HeaderStep(info0, resp, names, i);
      if Present(value) {
        var displayName := DisplayName(header);
        info := Put(info, displayName, JString(value.value));
      }
      i := i + 1;
    }
    assert names[..|names|] == names;
  }

  lemma SelectedSnoc(cs: seq<Candidate>, c: Candidate)
    ensures Selected(cs + [c]) == Selected(cs) + Pick(c)
  {
    assert (cs + [c])[..|cs|] == cs;
  }

  lemma SelectedThree(cs: seq<Candidate>)
    requires |cs| == 3
    ensures Selected(cs) == Pick(cs[0]) + Pick(cs[1]) + Pick(cs[2])
  {
    SelectedSnoc([], cs[0]);
    assert [cs[0]] == [] + [cs[0]];
    SelectedSnoc([cs[0]], cs[1]);
    SelectedSnoc([cs[0], cs[1]], cs[2]);
    assert cs == [cs[0], cs[1]] + [cs[2]];
    assert [cs[0], cs[1]] == [cs[0]] + [cs[1]];
  }

  /** `if (value) info[key] = value` for a key not yet in `info`. */
  lemma PutFresh(info: seq<Member>, c: Candidate)
    requires c.0 !in Keys(info)
    ensures (if Present(c.1) then Put(info, c.0, JString(c.1.value)) else info) == info + Pick(c)
    ensures forall key :: key !in Keys(info) && key != c.0 ==> key !in Keys(info + Pick(c))
  {
    KeysConcat(info, Pick(c));
  }

  /** The `response.cf` block (lines 110-120). */
  method AddCfFields(info0: seq<Member>, cf: Option<CfProperties>) returns (info: seq<Member>)
    requires forall k :: 0 <= k < |CfKeys| ==> CfKeys[k] !in Keys(info0)
    ensures info == info0 + Selected(CfCandidates(cf))
  {
    info := info0;
    ghost var cs := CfCandidates(cf);
    SelectedThree(cs);
    if cf.Some? {
      var c := cf.value;
      PutFresh(info, cs[0]);
      if Present(c.tlsVersion) {
        info := Put(info, "TLS Version", JString(c.tlsVersion.value));
      }
      PutFresh(info, cs[1]);
      if Present(c.tlsCipher) {
        info := Put(info, "TLS Cipher", JString(c.tlsCipher.value));
      }
      PutFresh(info, cs[2]);
      if Present(c.colo) {
        info := Put(info, "Cloudflare Data Center", JString(c.colo.value));
      }
      assert info == info0 + Pick(cs[0]) + Pick(cs[1]) + Pick(cs[2]);
      AppendThree(info0, Pick(cs[0]), Pick(cs[1]), Pick(cs[2]));
    }
  }

  lemma AppendAssoc(x: seq<Member>, y: seq<Member>, z: seq<Member>)
    ensures x + y + z == x + (y + z)
  {
  }

  lemma AppendThree(m: seq<Member>, a: seq<Member>, b: seq<Member>, c: seq<Member>)
    ensures m + a + b + c == m + (a + b + c)
  {
  }

  /** The allow-list's display names are new after the fixed entries and the server entry. */
  lemma HeadersFresh(m: seq<Member>)
    requires KeysAmong(m, FixedKeys + [ServerKey])
    ensures Distinct(Names(AllowList))
    ensures forall k :: 0 <= k < |AllowList| ==> DisplayName(AllowList[k]) !in Keys(m)
  {
    ReportKeysDistinct();
    var ks := ReportKeys();
    AllowListLowercase();
    AllowListShape();
    NamesDistinct(AllowList);
    assert ks[..6] == FixedKeys + [ServerKey];
    forall k | 0 <= k < |AllowList|
      ensures DisplayName(AllowList[k]) !in Keys(m)
    {
      assert ks[6 + k] == DisplayName(AllowList[k]);
      DistinctPrefix(ks, 6, 6 + k);
      NotAmong(m, FixedKeys + [ServerKey], DisplayName(AllowList[k]));
    }
  }

  /** The `cf` keys are new after every earlier entry. */
  lemma CfFresh(m: seq<Member>)
    requires KeysAmong(m, FixedKeys + [ServerKey] + Names(AllowList))
    ensures forall k :: 0 <= k < |CfKeys| ==> CfKeys[k] !in Keys(m)
  {
    ReportKeysDistinct();
    var ks := ReportKeys();
    assert ks[..20] == FixedKeys + [ServerKey] + Names(AllowList);
    forall k | 0 <= k < |CfKeys|
      ensures CfKeys[k] !in Keys(m)
    {
      assert ks[20 + k] == CfKeys[k];
      DistinctPrefix(ks, 20, 20 + k);
      NotAmong(m, ks[..20], CfKeys[k]);
    }
  }

  /** The parts the code appends one after another make up the `Selected` of all candidates. */
  lemma SelectedParts(f: seq<Member>, server: Candidate, headers: seq<Candidate>, cf: seq<Candidate>)
    ensures f + Pick(server) + Selected(headers) + Selected(cf) == f + Selected([server] + headers + cf)
  {
    SelectedSnoc([], server);
    assert [] + [server] == [server];
    SelectedConcat([server], headers);
    SelectedConcat([server] + headers, cf);
    AppendThree(f, Pick(server), Selected(headers), Selected(cf));
  }

  /** What `BuildReport` needs before the allow-list loop: its display names are new. */
  lemma BeforeHeaders(f: seq<Member>, server: Candidate)
    requires Keys(f) == FixedKeys && server.0 == ServerKey
    ensures Distinct(Names(AllowList))
    ensures forall k :: 0 <= k < |AllowList| ==> DisplayName(AllowList[k]) !in Keys(f + Pick(server))
  {
    KeysAmongConcat(f, Pick(server), FixedKeys, [ServerKey]);
    HeadersFresh(f + Pick(server));
  }

  /** What `BuildReport` needs before the `cf` block: its keys are new. */
  lemma BeforeCf(f: seq<Member>, server: Candidate, resp: HeadResponse)
    requires Keys(f) == FixedKeys && server.0 == ServerKey
    ensures forall k :: 0 <= k < |CfKeys| ==> CfKeys[k] !in Keys(f + Pick(server) + Selected(HeaderCandidates(resp, AllowList)))
  {
    KeysAmongConcat(f, Pick(server), FixedKeys, [ServerKey]);
    SelectedKeysAmong(HeaderCandidates(resp, AllowList), Names(AllowList));
    KeysAmongConcat(f + Pick(server), Selected(HeaderCandidates(resp, AllowList)),
                    FixedKeys + [ServerKey], Names(AllowList));
    CfFresh(f + Pick(server) + Selected(HeaderCandidates(resp, AllowList)));
  }

  /**
   * The `info` object of lines 67-120, built as the source builds it: the
   * object literal, the server entry, the allow-list loop, the `cf` block.
   */
  method BuildReport(url: Url, elapsed: int, resp: HeadResponse) returns (info: seq<Member>)
    ensures info == Report(url, elapsed, resp)
  {
    info := FixedEntries(url, elapsed, resp.status);
    ghost var fixed := info;
    var server := HeaderValue(resp, "server");
    PutFresh(info, (ServerKey, server));
    if Present(server) {
      info := Put(info, ServerKey, JString(server.value));
    }
    BeforeHeaders(fixed, (ServerKey, server));
    info := AddHeaders(info, resp, AllowList);
    BeforeCf(fixed, (ServerKey, server), resp);
    info := AddCfFields(info, resp.cf);
    SelectedParts(fixed, (ServerKey, server), HeaderCandidates(resp, AllowList), CfCandidates(resp.cf));
  }
}
