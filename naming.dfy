/** The filename resolver of `mget/core.py`: the last URL path segment, the
    extension taken from it or from the content type, and the ` (N)` counter
    that avoids names already present in the directory listing. */
module Naming {
  import opened Base
  import opened Strings

  /** The characters `filenameFromUrl` strips before deciding that a segment
      is unusable. */
  const StripChars: set<char> := {' ', '\n', '\t', '.'}

  /* ---------- filenameFromUrl ---------- */

  /** `os.path.basename` of a URL path: everything after the final `/`. */
  function Basename(path: string): (seg: string)
    ensures '/' !in seg
    ensures |seg| <= |path| && seg == path[|path| - |seg|..]
    ensures |seg| < |path| ==> path[|path| - |seg| - 1] == '/'
  {
    if |path| == 0 || path[|path| - 1] == '/' then []
    else
      var seg := Basename(path[..|path| - 1]) + [path[|path| - 1]];
      assert path[..|path| - 1] + [path[|path| - 1]] == path;
      seg
  }

  /** The segment after the last slash is the basename of the joined path. */
  lemma BasenameOfJoin(dir: string, seg: string)
    requires '/' !in seg
    ensures Basename(dir + "/" + seg) == seg
  {
    var p := dir + "/" + seg;
    var b := Basename(p);
    assert p[|dir|] == '/';
    assert p[|p| - |seg|..] == seg;
  }

  /** `filenameFromUrl(url)` on the path component of the URL: the last
      segment, or None when that segment is made only of spaces, newlines,
      tabs and dots. */
  function FilenameFromUrl(urlPath: string): (r: Option<string>)
    ensures r.None? <==> forall i | 0 <= i < |Basename(urlPath)| :: Basename(urlPath)[i] in StripChars
    ensures r.Some? ==> r.value == Basename(urlPath) && '/' !in r.value
  {
    var fname := Basename(urlPath);
    StripEmpty(fname, StripChars);
    if |Strip(fname, StripChars)| == 0 then None else Some(fname)
  }

  /* ---------- getFileExtension ---------- */

  /** A match of `\/(\w+)` can start at `j`. */
  predicate SlashWordAt(s: string, j: int) {
    0 <= j && j + 1 < |s| && s[j] == '/' && IsWordChar(s[j + 1])
  }

  /** The first position at or after `i` where `\/(\w+)` matches. */
  function FirstSlashWord(s: string, i: nat): (r: Option<nat>)
    requires i <= |s|
    ensures r.Some? ==> i <= r.value && SlashWordAt(s, r.value)
    ensures r.Some? ==> forall j | i <= j < r.value :: !SlashWordAt(s, j)
    ensures r.None? ==> forall j | i <= j < |s| :: !SlashWordAt(s, j)
    decreases |s| - i
  {
    if i == |s| then None
    else if SlashWordAt(s, i) then Some(i)
    else FirstSlashWord(s, i + 1)
  }

  /** The greedy `\w+` run that starts at `i`. */
  function WordRun(s: string, i: nat): (w: string)
    requires i <= |s|
    ensures i + |w| <= |s| && w == s[i..i + |w|]
    ensures forall k | 0 <= k < |w| :: IsWordChar(w[k])
    ensures i + |w| == |s| || !IsWordChar(s[i + |w|])
    decreases |s| - i
  {
    if i < |s| && IsWordChar(s[i]) then [s[i]] + WordRun(s, i + 1) else []
  }

  /** `getFileExtension(content_type)`: the word run after the first slash
      that a word character follows; ValueError when there is none. */
  function GetFileExtension(contentType: string): (r: Result<string>)
    ensures r.Failure? <==> forall j | 0 <= j < |contentType| :: !SlashWordAt(contentType, j)
    ensures r.Failure? ==> r.error == NoExtension
    ensures r.Success? ==> |r.value| > 0 && '.' !in r.value
    ensures r.Success? ==> forall k | 0 <= k < |r.value| :: IsWordChar(r.value[k])
  {
    match FirstSlashWord(contentType, 0)
    case None => Failure(NoExtension)
    case Some(j) =>
      var w := WordRun(contentType, j + 1);
      assert w[0] == contentType[j + 1];
      Success(w)
  }

  /** The extension is exactly the maximal word run that follows the first
      slash at which the pattern matches. */
  lemma GetFileExtensionMatch(s: string, j: nat, w: string)
    requires SlashWordAt(s, j)
    requires forall k | 0 <= k < j :: !SlashWordAt(s, k)
    requires j + 1 + |w| <= |s| && s[j + 1..j + 1 + |w|] == w
    requires forall k | 0 <= k < |w| :: IsWordChar(w[k])
    requires j + 1 + |w| == |s| || !IsWordChar(s[j + 1 + |w|])
    ensures GetFileExtension(s) == Success(w)
  {
    var f := FirstSlashWord(s, 0);
    assert f == Some(j);
    var v := WordRun(s, j + 1);
  }

  lemma GetFileExtensionZip()
    ensures GetFileExtension("application/zip") == Success("zip")
  {
    var s := "application/zip";
    forall k | 0 <= k < 11 ensures !SlashWordAt(s, k) {
      assert s[k] != '/';
    }
    assert s[12..15] == "zip";
    GetFileExtensionMatch(s, 11, "zip");
  }

  lemma GetFileExtensionHtml()
    ensures GetFileExtension("text/html; charset=x") == Success("html")
  {
    var s := "text/html; charset=x";
    forall k | 0 <= k < 4 ensures !SlashWordAt(s, k) {
      assert s[k] != '/';
    }
    assert s[5..9] == "html";
    assert s[9] == ';';
    GetFileExtensionMatch(s, 4, "html");
  }

  /* ---------- the name / extension split of download ---------- */

  /** `fname.rsplit('.', 1)`, falling back to the content type when `fname`
      holds no dot: the content-type lookup is a KeyError when the header is
      absent, and getFileExtension may raise ValueError. */
  function SplitName(fname: string, contentType: Option<string>): (r: Result<(string, string)>)
    ensures '.' in fname ==> r.Success? && r.value.0 + "." + r.value.1 == fname
    ensures '.' !in fname && contentType.None? ==> r == Failure(MissingHeader("content-type"))
    ensures '.' !in fname && contentType.Some? ==>
      match GetFileExtension(contentType.value)
      case Success(ext) => r == Success((fname, ext))
      case Failure(e) => r == Failure(e)
    ensures r.Success? ==> '.' !in r.value.1
    ensures r.Failure? ==> r.error in {MissingHeader("content-type"), NoExtension}
  {
    match RSplitDot(fname)
    case Some(parts) => Success(parts)
    case None =>
      match contentType
      case None => Failure(MissingHeader("content-type"))
      case Some(ct) =>
        match GetFileExtension(ct)
        case Success(ext) => Success((fname, ext))
        case Failure(e) => Failure(e)
  }

  /** The split is at the last dot: `file.tar.gz` gives `file.tar` and `gz`. */
  lemma SplitNameLastDot(name: string, ext: string, contentType: Option<string>)
    requires '.' !in ext
    ensures SplitName(name + "." + ext, contentType) == Success((name, ext))
  {
    RSplitDotJoin(name, ext);
  }

  /* ---------- isExist ---------- */

  /** `[x for x in listing if x.startswith(p)]`. */
  function Matching(listing: seq<string>, p: string): (r: seq<string>)
    ensures forall x :: x in r <==> x in listing && StartsWith(x, p)
  {
    if |listing| == 0 then []
    else
      var rest := Matching(listing[1..], p);
      assert forall x :: x in listing <==> x == listing[0] || x in listing[1..];
      if StartsWith(listing[0], p) then [listing[0]] + rest else rest
  }

  /** `isExist(f)` over a given listing: some entry starts with `f`. */
  function IsExist(f: string, listing: seq<string>): (b: bool)
    ensures b <==> exists i | 0 <= i < |listing| :: StartsWith(listing[i], f)
  {
    var names := Matching(listing, f);
    if |names| > 0 then
      assert names[0] in listing;
      true
    else
      assert forall i | 0 <= i < |listing| :: listing[i] in listing;
      false
  }

  /* ---------- fixFileExists ---------- */

  /** What one entry of the listing contributes to the counters. */
  datatype Counter = NotCounted | Counted(n: nat) | Unparsable

  /** `x.rsplit('.', 1)[0]`. */
  function StripExtension(x: string): (r: string)
    ensures '.' in x ==> exists e :: '.' !in e && r + "." + e == x
    ensures '.' !in x ==> r == x
  {
    match RSplitDot(x)
    case Some(parts) => assert '.' !in parts.1 && parts.0 + "." + parts.1 == x; parts.0
    case None => x
  }

  /** The counter text between ` (` and `)`, when the remainder has that shape. */
  function CounterText(x: string): (r: Option<string>)
    ensures r.Some? <==> |x| >= 3 && x[..2] == " (" && x[|x| - 1] == ')'
    ensures r.Some? ==> " (" + r.value + ")" == x
  {
    if StartsWith(x, " (") && EndsWith(x, ")") then
      assert x[1] == '(';
      assert x[|x| - 1] == ')';
      assert x == x[..2] + x[2..|x| - 1] + [x[|x| - 1]];
      Some(x[2..|x| - 1])
    else None
  }

  /** The pipeline of fixFileExists applied to one entry `x`: keep it when it
      starts with `name`, cut its extension, delete every occurrence of `name`,
      keep it only as ` (...)`, keep it only if all of `...` are ASCII digits,
      and parse it with `int`, which fails on the empty string. */
  function EntryCounter(x: string, name: string): (c: Counter)
    ensures !c.NotCounted? ==> StartsWith(x, name)
  {
    if !StartsWith(x, name) then NotCounted
    else
      match CounterText(DeleteAll(StripExtension(x), name))
      case None => NotCounted
      case Some(digits) =>
        if !AllDigits(digits) then NotCounted
        else if |digits| == 0 then Unparsable
        else Counted(ParseDecimal(digits))
  }

  /** The comprehensions of fixFileExists up to the digit filter, entry by
      entry: the counter of every entry of the listing, in order. */
  function Counters(listing: seq<string>, name: string): (cs: seq<Counter>)
    ensures |cs| == |listing|
  {
    if |listing| == 0 then [] else [EntryCounter(listing[0], name)] + Counters(listing[1..], name)
  }

  /** Entry `i` of the counters is the counter of entry `i` of the listing. */
  lemma {:induction false} CountersAt(listing: seq<string>, name: string, i: nat)
    requires i < |listing|
    ensures Counters(listing, name)[i] == EntryCounter(listing[i], name)
  {
    if i > 0 {
      CountersAt(listing[1..], name, i - 1);
    }
  }

  /** The counters of one entry followed by the rest. */
  lemma CountersCons(x: string, rest: seq<string>, name: string)
    ensures Counters([x] + rest, name) == [EntryCounter(x, name)] + Counters(rest, name)
  {
    assert ([x] + rest)[0] == x && ([x] + rest)[1..] == rest;
  }

  /** `[int(x) for x in suffixes if set(x) <= set('0123456789')]`: the
      counters that parse, in order, or the ValueError of `int('')`. */
  function ParsedCounters(cs: seq<Counter>): (r: Result<seq<nat>>)
    ensures r.Failure? <==> exists i | 0 <= i < |cs| :: cs[i].Unparsable?
    ensures r.Failure? ==> r.error == EmptyCounter
    ensures r.Success? ==> forall i | 0 <= i < |cs| && cs[i].Counted? :: cs[i].n in r.value
    ensures r.Success? ==> forall n | n in r.value :: exists i | 0 <= i < |cs| :: cs[i] == Counted(n)
  {
    if |cs| == 0 then Success([])
    else
      var rest := ParsedCounters(cs[1..]);
      assert forall i | 1 <= i < |cs| :: cs[i] == cs[1..][i - 1];
      if rest.Failure? then
        var k :| 0 <= k < |cs[1..]| && cs[1..][k].Unparsable?;
        assert cs[k + 1].Unparsable?;
        rest
      else if cs[0].Unparsable? then Failure(EmptyCounter)
      else if cs[0].Counted? then
        assert forall n | n in rest.value :: exists i | 1 <= i < |cs| :: cs[i] == Counted(n);
        Success([cs[0].n] + rest.value)
      else
        Success(rest.value)
  }

  function Max(s: seq<nat>): (m: nat)
    requires |s| > 0
    ensures m in s && forall x | x in s :: x <= m
  {
    if |s| == 1 then s[0]
    else
      var m := Max(s[1..]);
      assert forall x | x in s :: x == s[0] || x in s[1..];
      if s[0] > m then s[0] else m
  }

  /** `idx` is what fixFileExists computes from the counters: 1 more than the
      largest, or 1 when there is none. */
  ghost predicate IsNextIndex(cs: seq<Counter>, idx: nat) {
    && idx >= 1
    && (forall i | 0 <= i < |cs| && cs[i].Counted? :: cs[i].n < idx)
    && (idx == 1 || exists i | 0 <= i < |cs| :: cs[i] == Counted(idx - 1))
  }

  /** The name fixFileExists returns for counter `idx`: `'%s (%d).%s'`. */
  function Decorated(name: string, idx: nat, ext: string): (d: string)
    ensures StartsWith(d, name + " (") && EndsWith(d, ")." + ext)
  {
    var d := name + " (" + NatToDecimal(idx) + ")." + ext;
    assert d == (name + " (") + NatToDecimal(idx) + (")." + ext);
    assert d[..|name| + 2] == name + " (";
    assert d[|d| - |")." + ext|..] == ")." + ext;
    d
  }

  /** `fixFileExists(name, ext)` over a given listing. */
  function FixFileExists(name: string, ext: string, listing: seq<string>): (r: Result<string>)
    ensures r.Failure? ==> exists i | 0 <= i < |listing| :: Counters(listing, name)[i].Unparsable?
    ensures (exists i | 0 <= i < |listing| :: Counters(listing, name)[i].Unparsable?) ==> r.Failure?
    ensures r.Failure? ==> r.error == EmptyCounter
    ensures r.Success? ==>
      exists idx :: IsNextIndex(Counters(listing, name), idx) && r.value == Decorated(name, idx, ext)
    ensures r.Success? ==> StartsWith(r.value, name + " (")
  {
    var cs := Counters(listing, name);
    match ParsedCounters(cs)
    case Failure(e) =>
      var k :| 0 <= k < |cs| && cs[k].Unparsable?;
      assert Counters(listing, name)[k].Unparsable?;
      Failure(EmptyCounter)
    case Success(ix) =>
      var idx := if |ix| == 0 then 1 else 1 + Max(ix);
      NextIndexOf(cs, ix);
      var d := Decorated(name, idx, ext);
      assert IsNextIndex(cs, idx) && d == Decorated(name, idx, ext);
      Success(d)
  }

  /** fixFileExists fails exactly when the counter text of some entry of the
      listing is empty. */
  lemma FixFileExistsFails(name: string, ext: string, listing: seq<string>)
    ensures FixFileExists(name, ext, listing).Failure? <==>
      exists i | 0 <= i < |listing| :: EntryCounter(listing[i], name).Unparsable?
  {
    forall i | 0 <= i < |listing| {
      CountersAt(listing, name, i);
    }
  }

  /** The index fixFileExists computes from the counters is the next one. */
  lemma NextIndexOf(cs: seq<Counter>, ix: seq<nat>)
    requires ParsedCounters(cs) == Success(ix)
    ensures IsNextIndex(cs, if |ix| == 0 then 1 else 1 + Max(ix))
  {
  }

  /** For given counters, at most one index satisfies `IsNextIndex`. */
  lemma IsNextIndexUnique(cs: seq<Counter>, a: nat, b: nat)
    requires IsNextIndex(cs, a) && IsNextIndex(cs, b)
    ensures a == b
  {
  }

  /** The characters of a ` (N)` suffix. */
  predicate IsCounterChar(c: char) {
    c == ' ' || c == '(' || c == ')' || IsDigit(c)
  }

  /** `name` holds a character that cannot occur in a ` (N)` suffix. */
  predicate HasNameChar(name: string) {
    exists j | 0 <= j < |name| :: !IsCounterChar(name[j])
  }

  /** Round trip: for an ordinary name, the entry fixFileExists would create
      for counter `idx` is read back as counter `idx`. */
  lemma EntryCounterOfDecorated(name: string, idx: nat, ext: string)
    requires HasNameChar(name)
    requires '.' !in ext
    ensures EntryCounter(Decorated(name, idx, ext), name) == Counted(idx)
  {
    var d := NatToDecimal(idx);
    var tail := " (" + d + ")";
    var x := Decorated(name, idx, ext);
    assert x[..|name|] == name;
    StripDecorated(name, d, tail, ext);
    DeleteLeadingName(name, d, tail);
    assert CounterText(tail) == Some(d);
  }

  lemma StripDecorated(name: string, d: string, tail: string, ext: string)
    requires tail == " (" + d + ")"
    requires AllDigits(d)
    requires '.' !in ext
    ensures StripExtension(name + " (" + d + ")." + ext) == name + tail
  {
    assert name + " (" + d + ")." + ext == (name + tail) + "." + ext;
    RSplitDotJoin(name + tail, ext);
  }

  lemma DeleteLeadingName(name: string, d: string, tail: string)
    requires HasNameChar(name)
    requires tail == " (" + d + ")"
    requires AllDigits(d)
    ensures DeleteAll(name + tail, name) == tail
  {
    DeleteAllLeading(name, tail);
    var j :| 0 <= j < |name| && !IsCounterChar(name[j]);
    forall i | 0 <= i < |tail| ensures IsCounterChar(tail[i]) {
      if 2 <= i < |tail| - 1 {
        assert tail[i] == d[i - 2];
      }
    }
    DeleteAllAbsent(tail, name, IsCounterChar, j);
  }

  /** The name fixFileExists returns for an ordinary name is not in the
      listing, provided the extension holds no dot. */
  lemma FixFileExistsFresh(name: string, ext: string, listing: seq<string>)
    requires HasNameChar(name)
    requires '.' !in ext
    requires FixFileExists(name, ext, listing).Success?
    ensures FixFileExists(name, ext, listing).value !in listing
  {
    var r := FixFileExists(name, ext, listing).value;
    var idx :| IsNextIndex(Counters(listing, name), idx) && r == Decorated(name, idx, ext);
    if r in listing {
      var i :| 0 <= i < |listing| && listing[i] == r;
      CountersAt(listing, name, i);
      EntryCounterOfDecorated(name, idx, ext);
    }
  }

  /** Two entries, the first without a counter and the second with counter `n`. */
  lemma FixFileExistsPair(name: string, ext: string, a: string, b: string, n: nat)
    requires EntryCounter(a, name) == NotCounted
    requires EntryCounter(b, name) == Counted(n)
    ensures FixFileExists(name, ext, [a, b]) == Success(Decorated(name, n + 1, ext))
  {
    PairCounters(a, b, name);
    var cs := [NotCounted, Counted(n)];
    assert cs[1..] == [Counted(n)] && cs[1..][1..] == [];
    assert ParsedCounters([]) == Success([]);
    assert [n] + [] == [n];
    assert ParsedCounters(cs[1..]) == Success([n]);
    assert Max([n]) == n;
  }

  /** The counters of a two-entry listing. */
  lemma PairCounters(a: string, b: string, name: string)
    ensures Counters([a, b], name) == [EntryCounter(a, name), EntryCounter(b, name)]
  {
    CountersCons(b, [], name);
    assert [b] + [] == [b];
    CountersCons(a, [b], name);
    assert [a] + [b] == [a, b];
  }

  /** `report.pdf` and `report (1).pdf` exist: the next name is `report (2).pdf`. */
  lemma FixFileExistsReport()
    ensures FixFileExists("report", "pdf", ["report.pdf", "report (1).pdf"]) == Success("report (2).pdf")
  {
    ReportPlain();
    ReportNumbered();
    FixFileExistsPair("report", "pdf", "report.pdf", "report (1).pdf", 1);
    ReportTwo();
  }

  lemma ReportTwo()
    ensures Decorated("report", 2, "pdf") == "report (2).pdf"
  {
    DecoratedLiteral("report", 2, "pdf", "2");
    assert "report (2).pdf" == "report" + " (" + "2" + ")." + "pdf";
  }

  lemma DecoratedLiteral(name: string, idx: nat, ext: string, digits: string)
    requires 0 < idx < 10 && digits == [DigitChar(idx)]
    ensures Decorated(name, idx, ext) == name + " (" + digits + ")." + ext
  {
  }

  lemma ReportPlain()
    ensures EntryCounter("report.pdf", "report") == NotCounted
  {
    RSplitDotJoin("report", "pdf");
    assert "report.pdf" == "report" + "." + "pdf";
    DeleteAllLeading("report", "");
    assert CounterText(DeleteAll(StripExtension("report.pdf"), "report")) == None;
  }

  lemma ReportNumbered()
    ensures EntryCounter("report (1).pdf", "report") == Counted(1)
  {
    ReportHasNameChar();
    EntryCounterOfDecorated("report", 1, "pdf");
    ReportOne();
  }

  lemma ReportHasNameChar()
    ensures HasNameChar("report")
  {
    assert !IsCounterChar("report"[0]);
  }

  lemma ReportOne()
    ensures Decorated("report", 1, "pdf") == "report (1).pdf"
  {
    DecoratedLiteral("report", 1, "pdf", "1");
    assert "report (1).pdf" == "report" + " (" + "1" + ")." + "pdf";
  }

  /** As written, a name made of a suffix character can collide: with `).pdf`
      and `) (1).pdf` present, the deletion of every `)` spoils the counter of
      `) (1).pdf`, and fixFileExists returns that existing name again. */
  lemma FixFileExistsCanCollide()
    ensures FixFileExists(")", "pdf", [").pdf", ") (1).pdf"]) == Success(") (1).pdf")
    ensures IsExist(").pdf", [").pdf", ") (1).pdf"])
  {
    var listing := [").pdf", ") (1).pdf"];
    assert StartsWith(listing[0], ").pdf");
    ParenPlain();
    ParenNumbered();
    PairCounters(").pdf", ") (1).pdf", ")");
    var cs := [NotCounted, NotCounted];
    assert cs[1..] == [NotCounted] && cs[1..][1..] == [];
    assert ParsedCounters(cs) == Success([]);
    ParenOne();
  }

  lemma ParenOne()
    ensures Decorated(")", 1, "pdf") == ") (1).pdf"
  {
    DecoratedLiteral(")", 1, "pdf", "1");
    assert ") (1).pdf" == ")" + " (" + "1" + ")." + "pdf";
  }

  lemma ParenPlain()
    ensures EntryCounter(").pdf", ")") == NotCounted
  {
    RSplitDotJoin(")", "pdf");
    assert ").pdf" == ")" + "." + "pdf";
    DeleteAllLeading(")", "");
    assert CounterText(DeleteAll(StripExtension(").pdf"), ")")) == None;
  }

  lemma ParenNumbered()
    ensures EntryCounter(") (1).pdf", ")") == NotCounted
  {
    RSplitDotJoin(") (1)", "pdf");
    assert ") (1).pdf" == ") (1)" + "." + "pdf";
    DeleteAllLeading(")", " (1)");
    assert ") (1)" == ")" + " (1)";
    DeleteSpoilsCounter();
    assert CounterText(" (1") == None;
  }

  lemma DeleteSpoilsCounter()
    ensures DeleteAll(" (1)", ")") == " (1"
  {
    assert " (1)" == [' '] + "(1)" && "(1)" == ['('] + "1)" && "1)" == ['1'] + ")";
    DeleteAllKeep(' ', "(1)", ")");
    DeleteAllKeep('(', "1)", ")");
    DeleteAllKeep('1', ")", ")");
    DeleteAllLeading(")", "");
    assert ")" + "" == ")";
    assert [' '] + (['('] + (['1'] + "")) == " (1";
  }

  /** As written, a digit name makes fixFileExists raise: deleting every `1`
      from `1 (1)` leaves ` ()`, and `int('')` fails. So a third download
      of `1.pdf` stops with ValueError. */
  lemma FixFileExistsEmptyCounter()
    ensures FixFileExists("1", "pdf", ["1.pdf", "1 (1).pdf"]) == Failure(EmptyCounter)
  {
    OneNumbered();
    PairCounters("1.pdf", "1 (1).pdf", "1");
    assert Counters(["1.pdf", "1 (1).pdf"], "1")[1].Unparsable?;
  }

  lemma OneNumbered()
    ensures EntryCounter("1 (1).pdf", "1") == Unparsable
  {
    OneStripped();
    OneDeleted();
    EmptyCounterText();
    assert StartsWith("1 (1).pdf", "1");
  }

  lemma OneStripped()
    ensures StripExtension("1 (1).pdf") == "1 (1)"
  {
    RSplitDotJoin("1 (1)", "pdf");
    assert "1 (1).pdf" == "1 (1)" + "." + "pdf";
  }

  lemma OneDeleted()
    ensures DeleteAll("1 (1)", "1") == " ()"
  {
    DeleteAllLeading("1", " (1)");
    assert "1 (1)" == "1" + " (1)";
    DeleteLeavesEmptyCounter();
  }

  lemma EmptyCounterText()
    ensures CounterText(" ()") == Some("")
  {
  }

  lemma DeleteLeavesEmptyCounter()
    ensures DeleteAll(" (1)", "1") == " ()"
  {
    assert " (1)" == [' '] + "(1)" && "(1)" == ['('] + "1)" && "1)" == "1" + ")" && ")" == [')'] + "";
    DeleteAllKeep(' ', "(1)", "1");
    DeleteAllKeep('(', "1)", "1");
    DeleteAllLeading("1", ")");
    DeleteAllKeep(')', "", "1");
    assert [' '] + (['('] + ([')'] + "")) == " ()";
  }

  /* ---------- the resolved target of download ---------- */

  /** Lines 128-131 of download: the full name, replaced by the counter form
      when some entry of the listing starts with it. */
  function Disambiguate(name: string, ext: string, listing: seq<string>): (r: Result<string>)
    ensures !IsExist(name + "." + ext, listing) ==> r == Success(name + "." + ext) && name + "." + ext !in listing
    ensures IsExist(name + "." + ext, listing) ==> r == FixFileExists(name, ext, listing)
    ensures r.Success? ==> (r.value == name + "." + ext <==> !IsExist(name + "." + ext, listing))
    ensures r.Success? && '.' !in ext && HasNameChar(name) ==> r.value !in listing
    ensures r.Failure? ==> r.error == EmptyCounter
  {
    var fullname := name + "." + ext;
    if !IsExist(fullname, listing) then
      assert forall i | 0 <= i < |listing| :: |listing[i]| < |fullname| || listing[i][..|fullname|] != fullname;
      Success(fullname)
    else
      var r := FixFileExists(name, ext, listing);
      if r.Success? then
        assert r.value[..|name| + 2][|name|] == ' ' && fullname[|name|] == '.';
        if HasNameChar(name) && '.' !in ext then FixFileExistsFresh(name, ext, listing); r else r
      else r
  }

  /** The `fileop` record of download: base name, extension, final name. */
  datatype FileTarget = FileTarget(name: string, ext: string, fullname: string)

  /** Lines 119-131 of download for a file name `fname`: split off the
      extension and disambiguate the result. */
  function NameTarget(fname: string, contentType: Option<string>, listing: seq<string>): (r: Result<FileTarget>)
    ensures SplitName(fname, contentType).Failure? ==> r == Failure(SplitName(fname, contentType).error)
    ensures SplitName(fname, contentType).Success? ==>
      var parts := SplitName(fname, contentType).value;
      && (Disambiguate(parts.0, parts.1, listing).Failure? ==>
            r == Failure(Disambiguate(parts.0, parts.1, listing).error))
      && (Disambiguate(parts.0, parts.1, listing).Success? ==>
            r == Success(FileTarget(parts.0, parts.1, Disambiguate(parts.0, parts.1, listing).value)))
    ensures r.Failure? ==> r.error in {MissingHeader("content-type"), NoExtension, EmptyCounter}
    ensures r.Success? ==>
      && SplitName(fname, contentType) == Success((r.value.name, r.value.ext))
      && Disambiguate(r.value.name, r.value.ext, listing) == Success(r.value.fullname)
  {
    match SplitName(fname, contentType)
    case Failure(e) => Failure(e)
    case Success(parts) =>
      var (name, ext) := parts;
      match Disambiguate(name, ext, listing)
      case Failure(e) => Failure(e)
      case Success(fullname) => Success(FileTarget(name, ext, fullname))
  }

  /** Lines 117-131 of download: derive the name, split off the extension
      (AttributeError when there is no name) and disambiguate it. The listing
      stands for `os.listdir(DIRNAME)`. */
  function ResolveTarget(urlPath: string, contentType: Option<string>, listing: seq<string>): (r: Result<FileTarget>)
    ensures r == Failure(NoFileName) <==> FilenameFromUrl(urlPath).None?
    ensures r.Failure? ==> r.error in {NoFileName, MissingHeader("content-type"), NoExtension, EmptyCounter}
    ensures r.Success? ==>
      && FilenameFromUrl(urlPath).Some?
      && SplitName(FilenameFromUrl(urlPath).value, contentType) == Success((r.value.name, r.value.ext))
    ensures r.Success? ==> Disambiguate(r.value.name, r.value.ext, listing) == Success(r.value.fullname)
    ensures r.Success? ==>
      (r.value.fullname == r.value.name + "." + r.value.ext <==> !IsExist(r.value.name + "." + r.value.ext, listing))
    ensures r.Success? && (!IsExist(r.value.name + "." + r.value.ext, listing) || HasNameChar(r.value.name)) ==>
      r.value.fullname !in listing
    ensures FilenameFromUrl(urlPath).Some? ==> r == NameTarget(FilenameFromUrl(urlPath).value, contentType, listing)
  {
    match FilenameFromUrl(urlPath)
    case None => Failure(NoFileName)
    case Some(fname) => NameTarget(fname, contentType, listing)
  }
}
