/** `load_clubs_report`: the line parser for the markdown list of clubs grouped under
    country headers such as `**africa/congo-dr/cd.clubs.txt**: A ¬∑ **[B](url)** ¬∑ C`.
    The file is given as its sequence of lines; opening it is left out. */
module ClubsReport {
  import opened Wrappers
  import opened Seqs
  import opened Text

  // ---------- the header pattern ----------

  /** The characters of the header path: `[a-z/_.-]`. */
  predicate PathChar(c: char)
  {
    ('a' <= c <= 'z') || c == '/' || c == '_' || c == '.' || c == '-'
  }

  /** The length of the longest prefix of path characters. */
  function PathRun(s: string): (n: nat)
    ensures n <= |s|
    ensures forall i :: 0 <= i < n ==> PathChar(s[i])
    ensures n < |s| ==> !PathChar(s[n])
  {
    if s != [] && PathChar(s[0]) then 1 + PathRun(s[1..]) else 0
  }

  const HeaderOpen: string := "**"
  const HeaderClose: string := ".txt**"

  /** A path of `k` characters after the opening `**` is followed by `.txt**`. */
  predicate ClosesAt(line: string, k: nat)
  {
    OccursAt(line, HeaderClose, |HeaderOpen| + k)
  }

  /** The length the greedy path match settles on, backtracking from `k` characters down to
      one: the largest `j <= k` followed by `.txt**`, or 0 when there is none. */
  function BacktrackLen(line: string, k: nat): (n: nat)
    requires |HeaderOpen| + k <= |line|
    ensures n <= k && (n > 0 ==> ClosesAt(line, n))
    ensures forall j :: n < j <= k ==> !ClosesAt(line, j)
  {
    if k == 0 then 0
    else if ClosesAt(line, k) then k
    else BacktrackLen(line, k - 1)
  }

  /** The path the greedy match settles on, if any. */
  function Backtrack(line: string, k: nat): (r: Option<string>)
    requires |HeaderOpen| + k <= |line|
    ensures r.Some? ==> 1 <= |r.value| <= k && r.value == line[|HeaderOpen|..|HeaderOpen| + |r.value|]
                        && ClosesAt(line, |r.value|)
    ensures r.Some? ==> forall j :: |r.value| < j <= k ==> !ClosesAt(line, j)
    ensures r.None? <==> forall j :: 1 <= j <= k ==> !ClosesAt(line, j)
  {
    var n := BacktrackLen(line, k);
    if n == 0 then None else Some(line[|HeaderOpen|..|HeaderOpen| + n])
  }

  /** The path captured by `^\*\*([a-z\/_.-]+)\.txt\*\*`: after the opening `**`, the longest
      run of path characters that is followed by `.txt**`. */
  function HeaderPath(line: string): (r: Option<string>)
    ensures r.Some? ==> |r.value| >= 1 && (forall i :: 0 <= i < |r.value| ==> PathChar(r.value[i]))
                        && StartsWith(line, HeaderOpen + r.value + HeaderClose)
    ensures r.Some? ==> forall j :: |r.value| < j <= PathRun(line[|HeaderOpen|..]) ==> !ClosesAt(line, j)
    ensures r.None? <==> !StartsWith(line, HeaderOpen) || forall j :: 1 <= j <= PathRun(line[|HeaderOpen|..]) ==> !ClosesAt(line, j)
  {
    if !StartsWith(line, HeaderOpen) then None
    else
      var n := PathRun(line[|HeaderOpen|..]);
      var r := Backtrack(line, n);
      if r.Some? then
        var p := r.value;
        PrefixOfPieces(line, HeaderOpen, p, HeaderClose);
        r
      else r
  }

  /** The run of path characters of `p + t` covers all of `p`. */
  lemma {:induction false} PathRunPrefix(p: string, t: string)
    requires forall i :: 0 <= i < |p| ==> PathChar(p[i])
    ensures PathRun(p + t) == |p| + PathRun(t)
  {
    if p != [] {
      assert (p + t)[1..] == p[1..] + t;
      PathRunPrefix(p[1..], t);
    } else {
      assert p + t == t;
    }
  }

  /** Backtracking passes over lengths that are not followed by `.txt**`. */
  lemma BacktrackSkip(line: string, k: nat, m: nat)
    requires m <= k && |HeaderOpen| + k <= |line|
    requires forall j :: m < j <= k ==> !ClosesAt(line, j)
    ensures Backtrack(line, k) == Backtrack(line, m)
  {
    var nk, nm := BacktrackLen(line, k), BacktrackLen(line, m);
    assert nk <= m;
    assert nk == nm;
  }

  /** A header written as `**` + path + `.txt**` is recognised with exactly that path, whatever
      follows it. */
  lemma HeaderOfPath(p: string, rest: string)
    requires |p| >= 1 && forall i :: 0 <= i < |p| ==> PathChar(p[i])
    ensures HeaderPath(HeaderOpen + p + HeaderClose + rest) == Some(p)
  {
    var line := HeaderOpen + p + HeaderClose + rest;
    var after := HeaderClose + rest;
    Slices4(HeaderOpen, p, HeaderClose, rest);
    PathRunPrefix(p, after);
    CloseRun(rest);
    forall j | |p| < j <= |p| + 4 ensures !ClosesAt(line, j) {
      assert line[2 + j] == after[j - |p|];
    }
    HeaderPathAt(line, p);
  }

  /** The path run of `.txt**` followed by anything stops at the second `*`. */
  lemma CloseRun(rest: string)
    ensures PathRun(HeaderClose + rest) == 4
  {
    var after := HeaderClose + rest;
    assert after[1..][1..][1..][1..][0] == '*';
  }

  /** A line whose path run overshoots the path `p` by only non-closing lengths, and where
      `p` is followed by `.txt**`, has header path `p`. */
  lemma HeaderPathAt(line: string, p: string)
    requires |p| >= 1 && |HeaderOpen| + |p| + |HeaderClose| <= |line|
    requires line[..|HeaderOpen|] == HeaderOpen && line[|HeaderOpen|..|HeaderOpen| + |p|] == p
    requires line[|HeaderOpen| + |p|..|HeaderOpen| + |p| + |HeaderClose|] == HeaderClose
    requires |p| <= PathRun(line[|HeaderOpen|..])
    requires forall j :: |p| < j <= PathRun(line[|HeaderOpen|..]) ==> !ClosesAt(line, j)
    ensures HeaderPath(line) == Some(p)
  {
    BacktrackSkip(line, PathRun(line[|HeaderOpen|..]), |p|);
    assert ClosesAt(line, |p|);
  }

  // ---------- the country of a header ----------

  /** `path.split('/')[-2]`; a path without `/` makes the index fail, which aborts the
      whole parse (`None`). */
  function PathCountry(path: string): (r: Option<string>)
    ensures r.None? <==> '/' !in path
  {
    var segs := SplitOn(path, "/");
    SplitOnChar(path, '/');
    if |segs| < 2 then None else Some(segs[|segs| - 2])
  }

  /** The country is the directory holding the list file. */
  lemma PathCountryOf(dirs: string, country: string, file: string)
    requires '/' !in country && '/' !in file
    ensures PathCountry(dirs + "/" + country + "/" + file) == Some(country)
  {
    SplitOnConcat(dirs + "/" + country, file, '/');
    SplitOnConcat(dirs, country, '/');
    SplitOnChar(country, '/');
    SplitOnChar(file, '/');
  }

  // ---------- club names ----------

  /** The first occurrence of `t` in `s`. */
  function Find(s: string, t: string): (r: Option<nat>)
    ensures r.Some? ==> OccursAt(s, t, r.value) && forall j :: 0 <= j < r.value ==> !OccursAt(s, t, j)
    ensures r.None? ==> forall j :: !OccursAt(s, t, j)
    decreases |s|
  {
    if StartsWith(s, t) then Some(0)
    else if s == [] then None
    else
      OccursTail(s, t);
      match Find(s[1..], t)
      case None => None
      case Some(i) => Some(i + 1)
  }

  lemma OccursTail(s: string, t: string)
    requires s != [] && !StartsWith(s, t)
    ensures !OccursAt(s, t, 0)
    ensures forall j :: 1 <= j ==> (OccursAt(s, t, j) <==> OccursAt(s[1..], t, j - 1))
  {
    forall j | 1 <= j ensures OccursAt(s, t, j) <==> OccursAt(s[1..], t, j - 1) {
      OccursShift(s, t, j);
    }
  }

  lemma OccursShift(s: string, t: string, j: int)
    requires s != [] && 1 <= j
    ensures OccursAt(s, t, j) <==> OccursAt(s[1..], t, j - 1)
  {
    if j + |t| <= |s| {
      SliceOfDrop(s, 1, j - 1, j - 1 + |t|);
    }
  }

  const LinkOpen: string := "**["
  const LinkMid: string := "]("
  const LinkClose: string := ")**"

  /** The outcome of matching the link pattern: no match, or the captured name and the
      length of the text matched. */
  datatype LinkMatch = NoLink | Link(name: string, len: nat)

  /** A match of the link pattern `\*\*\[([^\]]+)\]\(.*?\)\*\*` at the start of `s`. */
  function LinkAt(s: string): (r: LinkMatch)
    ensures r.Link? ==> |r.name| >= 1 && 0 < r.len <= |s|
  {
    if !StartsWith(s, LinkOpen) then NoLink
    else
      match LinkBody(s[|LinkOpen|..])
      case NoLink => NoLink
      case Link(name, len) => Link(name, |LinkOpen| + len)
  }

  /** The link pattern after its opener: a non-empty name up to the first `]`, then `(`,
      then the shortest text up to `)**`. */
  function LinkBody(body: string): (r: LinkMatch)
    ensures r.Link? ==> |r.name| >= 1 && r.len <= |body|
  {
    match Find(body, "]")
    case None => NoLink
    case Some(k) =>
      if k == 0 || !StartsWith(body[k..], LinkMid) then NoLink
      else
        var url := body[k + |LinkMid|..];
        match Find(url, LinkClose)
        case None => NoLink
        case Some(j) => Link(body[..k], k + |LinkMid| + j + |LinkClose|)
  }

  /** `re.sub(link, r'\1', s)`: every link, scanning left to right, replaced by its name. */
  function ReduceLinks(s: string): (r: string)
    decreases |s|
  {
    if s == [] then []
    else
      match LinkAt(s)
      case Link(name, len) => name + ReduceLinks(s[len..])
      case NoLink => [s[0]] + ReduceLinks(s[1..])
  }

  /** Text without the link opener `**[` is left as it is. */
  lemma {:induction false} ReduceLinksPlain(s: string)
    requires !Contains(s, LinkOpen)
    ensures ReduceLinks(s) == s
    decreases |s|
  {
    if s != [] {
      ReduceLinksPlain(s[1..]);
      assert [s[0]] + s[1..] == s;
    }
  }

  /** The link opener is recognised at the start of `**[name](url)**`. */
  lemma LinkAtOf(name: string, url: string, rest: string)
    requires |name| >= 1 && ']' !in name && ')' !in url
    ensures LinkAt(LinkOpen + name + LinkMid + url + LinkClose + rest)
         == Link(name, |LinkOpen| + |name| + |LinkMid| + |url| + |LinkClose|)
  {
    var s := LinkOpen + name + LinkMid + url + LinkClose + rest;
    assert s[..|LinkOpen|] == LinkOpen;
    assert s[|LinkOpen|..] == name + LinkMid + url + LinkClose + rest;
    LinkBodyOf(name, url, rest);
  }

  lemma LinkBodyOf(name: string, url: string, rest: string)
    requires |name| >= 1 && ']' !in name && ')' !in url
    ensures LinkBody(name + LinkMid + url + LinkClose + rest)
         == Link(name, |name| + |LinkMid| + |url| + |LinkClose|)
  {
    var tail := url + LinkClose + rest;
    var body := name + (LinkMid + tail);
    Regroup(name, LinkMid, url, LinkClose, rest);
    LinkNamePart(name, tail);
    LinkUrlPart(url, rest);
    LinkBodyFrom(body, |name|, |url|);
  }

  /** The name ends at the first `]`, which opens the `](` of the link. */
  lemma LinkNamePart(name: string, tail: string)
    requires ']' !in name
    ensures var body := name + (LinkMid + tail);
            && Find(body, "]") == Some(|name|) && |name| + |LinkMid| <= |body|
            && StartsWith(body[|name|..], LinkMid) && body[|name| + |LinkMid|..] == tail
  {
    var afterName := LinkMid + tail;
    ConcatSlices(name, afterName);
    ConcatSlices(LinkMid, tail);
    assert StartsWith(afterName, "]");
    FindFirstAt(name, afterName, "]");
    SliceOfDrop(name + afterName, |name|, |LinkMid|, |afterName|);
  }

  /** A URL without `)` ends at the first `)**`. */
  lemma LinkUrlPart(url: string, rest: string)
    requires ')' !in url
    ensures Find(url + LinkClose + rest, LinkClose) == Some(|url|)
  {
    var tail := LinkClose + rest;
    assert url + LinkClose + rest == url + tail;
    assert StartsWith(tail, LinkClose) by {
      ConcatSlices(LinkClose, rest);
    }
    FindFirstAt(url, tail, LinkClose);
  }

  /** The link pattern matched from where its `]` and its `)**` are found. */
  lemma LinkBodyFrom(body: string, k: nat, j: nat)
    requires Find(body, "]") == Some(k) && k > 0 && k + |LinkMid| <= |body|
    requires StartsWith(body[k..], LinkMid) && Find(body[k + |LinkMid|..], LinkClose) == Some(j)
    ensures LinkBody(body) == Link(body[..k], k + |LinkMid| + j + |LinkClose|)
  {
  }

  /** When `x` lacks the first character of `t` and `y` starts with `t`, the first occurrence
      of `t` in `x + y` is right after `x`. */
  lemma FindFirstAt(x: string, y: string, t: string)
    requires |t| >= 1 && t[0] !in x && StartsWith(y, t)
    ensures Find(x + y, t) == Some(|x|)
  {
    var s := x + y;
    assert OccursAt(s, t, |x|) by {
      assert s[|x|..|x| + |t|] == y[..|t|];
    }
    forall j | 0 <= j < |x| ensures !OccursAt(s, t, j) {
      assert s[j] == x[j] && x[j] != t[0];
    }
  }

  /** A markdown link is reduced to its name, and scanning goes on after it. */
  lemma ReduceLink(name: string, url: string, rest: string)
    requires |name| >= 1 && ']' !in name && ')' !in url
    ensures ReduceLinks(LinkOpen + name + LinkMid + url + LinkClose + rest) == name + ReduceLinks(rest)
  {
    var s := LinkOpen + name + LinkMid + url + LinkClose + rest;
    LinkAtOf(name, url, rest);
    assert s[|LinkOpen| + |name| + |LinkMid| + |url| + |LinkClose|..] == rest;
  }

  /** The separator between the clubs of a line, as it appears in the file. */
  const Sep: string := " ¬∑ "

  /** The characters `lstrip('¬∑')` removes. */
  const ListMarks: set<char> := {'¬', '∑'}

  /** `str.lstrip(chars)`: drops leading characters of `cs`. */
  function LStripChars(s: string, cs: set<char>): (r: string)
    ensures |r| <= |s| && r == s[|s| - |r|..]
    ensures forall k :: 0 <= k < |s| - |r| ==> s[k] in cs
    ensures |r| > 0 ==> r[0] !in cs
  {
    if s != [] && s[0] in cs then LStripChars(s[1..], cs) else s
  }

  /** One club name: links reduced, list marks and surrounding whitespace removed. */
  function Clean(raw: string): string
  {
    Strip(LStripChars(Strip(ReduceLinks(Strip(raw))), ListMarks))
  }

  /** A name with no surrounding whitespace, no link and no list mark is already clean. */
  lemma CleanFixed(n: string)
    requires Strip(n) == n && !Contains(n, LinkOpen) && '¬' !in n && '∑' !in n
    ensures Clean(n) == n
  {
    ReduceLinksPlain(n);
    assert LStripChars(n, ListMarks) == n by {
      if n != [] { assert n[0] in n; }
    }
  }

  /** Each piece cleaned. */
  function Cleaned(pieces: seq<string>): (r: seq<string>)
    ensures |r| == |pieces| && forall i :: 0 <= i < |pieces| ==> r[i] == Clean(pieces[i])
  {
    Map(pieces, Clean)
  }

  /** The predicate "the name is not empty" (`if clean_name:`). */
  function Filled(): string -> bool
  {
    (x: string) => x != []
  }

  /** The non-empty strings of `xs`, in order. */
  function NonEmpty(xs: seq<string>): (r: seq<string>)
    ensures forall i :: 0 <= i < |r| ==> r[i] != []
    ensures forall x :: x in r <==> x in xs && x != []
  {
    var r := Filter(xs, Filled());
    assert forall i :: 0 <= i < |r| ==> r[i] in r;
    r
  }

  /** The non-empty cleaned names of the pieces, in order. */
  function Names(pieces: seq<string>): (r: seq<string>)
    ensures forall i :: 0 <= i < |r| ==> r[i] != []
  {
    NonEmpty(Cleaned(pieces))
  }

  /** A name is emitted exactly when it is the non-empty cleaned form of some piece. */
  lemma NamesMembership(pieces: seq<string>, x: string)
    ensures x in Names(pieces) <==> x != [] && exists i :: 0 <= i < |pieces| && Clean(pieces[i]) == x
  {
    var c := Cleaned(pieces);
    if x in c {
      var i :| 0 <= i < |c| && c[i] == x;
      assert Clean(pieces[i]) == x;
    }
  }

  /** Pieces that are already clean, non-empty names come out unchanged. */
  lemma NamesOfClean(pieces: seq<string>)
    requires forall i :: 0 <= i < |pieces| ==> pieces[i] != [] && Clean(pieces[i]) == pieces[i]
    ensures Names(pieces) == pieces
  {
    assert Cleaned(pieces) == pieces;
    FilterAll(pieces, Filled());
  }

  // ---------- the line parser ----------

  /** One parsed record: the club name as written (links reduced) and the country segment of
      the most recent header. */
  datatype ReportClub = ReportClub(name: string, country: string)

  /** The records of `names`, all under `country`. */
  function Tag(names: seq<string>, country: string): (r: seq<ReportClub>)
    ensures |r| == |names| && forall i :: 0 <= i < |names| ==> r[i] == ReportClub(names[i], country)
  {
    seq(|names|, i requires 0 <= i < |names| => ReportClub(names[i], country))
  }

  /** The records of one line of club text. */
  function ClubsOf(text: string, country: string): (r: seq<ReportClub>)
    ensures forall k :: 0 <= k < |r| ==> r[k].name != [] && r[k].country == country
  {
    Tag(Names(SplitOn(text, Sep)), country)
  }

  /** The clubs part of a header line: the text after its first colon, nothing without one. */
  function ClubsPart(line: string): string
  {
    TextAfter(line, ':').GetOr([])
  }

  /** A header whose path has no `/`: reading it aborts the parse. */
  predicate BadHeader(raw: string)
  {
    var line := Strip(raw);
    var h := HeaderPath(line);
    line != [] && h.Some? && PathCountry(h.value).None?
  }

  /** What reading one line does: abort, or emit records and move on with a country. */
  datatype Step = Abort | Emit(records: seq<ReportClub>, next: Option<string>)

  /** One iteration of the loop, with `current` the country of the most recent header (`None`
      before the first). A blank line is skipped; a header line sets the country and
      contributes the clubs after its colon; any other line contributes its clubs when the
      current country is a non-empty string, and is skipped otherwise. */
  function LineStep(raw: string, current: Option<string>): (r: Step)
    ensures r.Abort? <==> BadHeader(raw)
    ensures r.Emit? ==> forall k :: 0 <= k < |r.records| ==> r.records[k].name != []
  {
    var line := Strip(raw);
    if line == [] then Emit([], current)
    else
      match HeaderPath(line)
      case Some(path) =>
        (match PathCountry(path)
         case None => Abort
         case Some(country) => Emit(ClubsOf(ClubsPart(line), country), Some(country)))
      case None =>
        if current.Some? && current.value != [] then Emit(ClubsOf(line, current.value), current)
        else Emit([], current)
  }

  /** A blank line, or any non-header line before the first header, is skipped. */
  lemma LineStepSkips(raw: string)
    requires HeaderPath(Strip(raw)).None?
    ensures LineStep(raw, None) == Emit([], None)
  {
  }

  /** `a` followed by the records of `r`, keeping a failure. */
  function Prepend(a: seq<ReportClub>, r: Option<seq<ReportClub>>): Option<seq<ReportClub>>
  {
    if r.None? then None else Some(a + r.value)
  }

  /** The loop over the lines, for any per-line step: the records of every line in order,
      stopping with `None` at the first abort. */
  function Scan(step: (string, Option<string>) -> Step, lines: seq<string>, current: Option<string>): Option<seq<ReportClub>>
    decreases |lines|
  {
    if lines == [] then Some([])
    else
      match step(lines[0], current)
      case Abort => None
      case Emit(records, next) => Prepend(records, Scan(step, lines[1..], next))
  }

  /** The country after reading `lines` starting from `current`. */
  function ScanAfter(step: (string, Option<string>) -> Step, lines: seq<string>, current: Option<string>): Option<string>
    decreases |lines|
  {
    if lines == [] then current
    else
      match step(lines[0], current)
      case Abort => current
      case Emit(_, next) => ScanAfter(step, lines[1..], next)
  }

  /** Two results one after the other; a failure in either is a failure. */
  function Then(a: Option<seq<ReportClub>>, b: Option<seq<ReportClub>>): Option<seq<ReportClub>>
  {
    if a.Some? && b.Some? then Some(a.value + b.value) else None
  }

  lemma {:induction false} ScanConcat(step: (string, Option<string>) -> Step, a: seq<string>, b: seq<string>, current: Option<string>)
    ensures Scan(step, a + b, current) == Then(Scan(step, a, current), Scan(step, b, ScanAfter(step, a, current)))
    decreases |a|
  {
    if a == [] {
      assert a + b == b;
      var y := Scan(step, b, current);
      if y.Some? {
        assert [] + y.value == y.value;
      }
    } else {
      assert (a + b)[0] == a[0] && (a + b)[1..] == a[1..] + b;
      match step(a[0], current)
      case Abort =>
      case Emit(records, next) =>
        ScanConcat(step, a[1..], b, next);
        var x, y := Scan(step, a[1..], next), Scan(step, b, ScanAfter(step, a[1..], next));
        if x.Some? && y.Some? {
          assert records + (x.value + y.value) == (records + x.value) + y.value;
        }
    }
  }

  lemma {:induction false} ScanFailsIff(step: (string, Option<string>) -> Step, bad: string -> bool, lines: seq<string>, current: Option<string>)
    requires forall raw, c :: step(raw, c).Abort? == bad(raw)
    ensures Scan(step, lines, current).None? <==> exists i :: 0 <= i < |lines| && bad(lines[i])
    decreases |lines|
  {
    if lines != [] && !bad(lines[0]) {
      var next := step(lines[0], current).next;
      ScanFailsIff(step, bad, lines[1..], next);
      if exists i :: 0 <= i < |lines[1..]| && bad(lines[1..][i]) {
        var i :| 0 <= i < |lines[1..]| && bad(lines[1..][i]);
        assert bad(lines[i + 1]);
      }
      if exists i :: 0 <= i < |lines| && bad(lines[i]) {
        var i :| 0 <= i < |lines| && bad(lines[i]);
        assert bad(lines[1..][i - 1]);
      }
    }
  }

  lemma {:induction false} ScanSkips(step: (string, Option<string>) -> Step, pre: seq<string>, rest: seq<string>, current: Option<string>)
    requires forall i :: 0 <= i < |pre| ==> step(pre[i], current) == Emit([], current)
    ensures Scan(step, pre + rest, current) == Scan(step, rest, current)
    decreases |pre|
  {
    if pre == [] {
      assert pre + rest == rest;
    } else {
      assert (pre + rest)[0] == pre[0] && (pre + rest)[1..] == pre[1..] + rest;
      assert forall i :: 0 <= i < |pre[1..]| ==> pre[1..][i] == pre[i + 1];
      ScanSkips(step, pre[1..], rest, current);
      var y := Scan(step, pre[1..] + rest, current);
      if y.Some? {
        assert [] + y.value == y.value;
      }
    }
  }

  lemma {:induction false} ScanNames(step: (string, Option<string>) -> Step, lines: seq<string>, current: Option<string>)
    requires forall raw, c :: step(raw, c).Emit? ==> forall k :: 0 <= k < |step(raw, c).records| ==> step(raw, c).records[k].name != []
    ensures Scan(step, lines, current).Some? ==>
            forall k :: 0 <= k < |Scan(step, lines, current).value| ==> Scan(step, lines, current).value[k].name != []
    decreases |lines|
  {
    if lines != [] && step(lines[0], current).Emit? {
      ScanNames(step, lines[1..], step(lines[0], current).next);
    }
  }

  /** `load_clubs_report` on the lines of the file. */
  function ParseReport(lines: seq<string>): Option<seq<ReportClub>>
  {
    Scan(LineStep, lines, None)
  }

  /** Every parsed record has a non-empty name. */
  lemma ParsedNamesFilled(lines: seq<string>)
    ensures ParseReport(lines).Some? ==> forall k :: 0 <= k < |ParseReport(lines).value| ==> ParseReport(lines).value[k].name != []
  {
    ScanNames(LineStep, lines, None);
  }

  /** The parse fails exactly when some line is a header whose path has no `/`. */
  lemma ParseFailsIff(lines: seq<string>)
    ensures ParseReport(lines).None? <==> exists i :: 0 <= i < |lines| && BadHeader(lines[i])
  {
    ScanFailsIff(LineStep, BadHeader, lines, None);
  }

  /** The parser is a left-to-right scan: parsing `a + b` is parsing `a`, then parsing `b` from
      the country `a` ends with. */
  lemma ParseConcat(a: seq<string>, b: seq<string>)
    ensures ParseReport(a + b) == Then(ParseReport(a), Scan(LineStep, b, ScanAfter(LineStep, a, None)))
  {
    ScanConcat(LineStep, a, b, None);
  }

  /** Blank lines and lines before the first header contribute nothing. */
  lemma PreambleIgnored(pre: seq<string>, rest: seq<string>)
    requires forall i :: 0 <= i < |pre| ==> HeaderPath(Strip(pre[i])).None?
    ensures ParseReport(pre + rest) == ParseReport(rest)
  {
    forall i | 0 <= i < |pre| ensures LineStep(pre[i], None) == Emit([], None) {
      LineStepSkips(pre[i]);
    }
    ScanSkips(LineStep, pre, rest, None);
  }

  // ---------- round trip ----------

  /** A club name as it can be written between separators: non-empty, no surrounding
      whitespace, no link, no list mark. */
  predicate PlainName(n: string)
  {
    n != [] && Strip(n) == n && !Contains(n, LinkOpen) && '¬' !in n && '∑' !in n
  }

  /** Clean names written after a colon and a space, separated by ` ¬∑ `, are read back as
      exactly those names. */
  lemma ClubListRoundTrip(names: seq<string>)
    requires |names| >= 1 && forall i :: 0 <= i < |names| ==> PlainName(names[i])
    ensures Names(SplitOn(" " + Join(names, Sep), Sep)) == names
  {
    SplitSpaced(names);
    CleanedSpaced(names);
    NonEmptyAll(names);
  }

  /** The pieces of the spaced, joined list: the first name with its leading space, then the
      other names. */
  lemma SplitSpaced(names: seq<string>)
    requires |names| >= 1 && forall i :: 0 <= i < |names| ==> '¬' !in names[i]
    ensures SplitOn(" " + Join(names, Sep), Sep) == [[' '] + names[0]] + names[1..]
  {
    var ps := [[' '] + names[0]] + names[1..];
    assert " " + Join(names, Sep) == Join(ps, Sep) by {
      JoinPrepend(' ', names, Sep);
    }
    SpacedMarkFree(names);
    JoinSplit(ps, Sep, '¬');
  }

  lemma SpacedMarkFree(names: seq<string>)
    requires |names| >= 1 && forall i :: 0 <= i < |names| ==> '¬' !in names[i]
    ensures forall i :: 0 <= i < |[[' '] + names[0]] + names[1..]| ==> '¬' !in ([[' '] + names[0]] + names[1..])[i]
  {
    var ps := [[' '] + names[0]] + names[1..];
    forall i | 0 <= i < |ps| ensures '¬' !in ps[i] {
      if i > 0 {
        assert ps[i] == names[i];
      }
    }
  }

  lemma CleanedSpaced(names: seq<string>)
    requires |names| >= 1 && forall i :: 0 <= i < |names| ==> PlainName(names[i])
    ensures Cleaned([[' '] + names[0]] + names[1..]) == names
  {
    var ps := [[' '] + names[0]] + names[1..];
    CleanPlain(names[0]);
    CleanedPlain(names[1..]);
    CleanedCons(ps, names);
  }

  /** Plain names are left as they are by cleaning. */
  lemma {:induction false} CleanedPlain(xs: seq<string>)
    requires forall i :: 0 <= i < |xs| ==> PlainName(xs[i])
    ensures Cleaned(xs) == xs
  {
    if xs != [] {
      CleanPlain(xs[0]);
      forall i | 0 <= i < |xs| - 1 ensures PlainName(xs[1..][i]) {
        TailIndex(xs, i);
      }
      CleanedPlain(xs[1..]);
      CleanedCons(xs, xs);
    }
  }

  /** Cleaning is done piece by piece: when the first piece cleans to the first name and the
      other pieces clean to the other names, the pieces clean to the names. */
  lemma CleanedCons(ps: seq<string>, names: seq<string>)
    requires ps != [] && names != [] && Clean(ps[0]) == names[0] && Cleaned(ps[1..]) == names[1..]
    ensures Cleaned(ps) == names
  {
    HeadTail(names);
  }

  /** A plain name is clean, also after a leading space. */
  lemma CleanPlain(n: string)
    requires PlainName(n)
    ensures Clean(n) == n && Clean([' '] + n) == n
  {
    CleanFixed(n);
    CleanSpacePrefix(n);
  }

  /** A leading space makes no difference to cleaning. */
  lemma CleanSpacePrefix(n: string)
    ensures Clean([' '] + n) == Clean(n)
  {
    StripSpacePrefix(n);
  }

  lemma NonEmptyAll(xs: seq<string>)
    requires forall i :: 0 <= i < |xs| ==> xs[i] != []
    ensures NonEmpty(xs) == xs
  {
    FilterAll(xs, Filled());
  }

  /** The path of a header written as directories, country directory and file name. */
  function ListPath(dirs: string, country: string, file: string): string
  {
    dirs + "/" + country + "/" + file
  }

  /** A header line as the report writes it. */
  function HeaderLine(dirs: string, country: string, file: string, names: seq<string>): string
    requires |names| >= 1
  {
    HeaderOpen + ListPath(dirs, country, file) + HeaderClose + ": " + Join(names, Sep)
  }

  predicate PathText(s: string)
  {
    forall i :: 0 <= i < |s| ==> PathChar(s[i])
  }

  /** A header line is already stripped. */
  lemma HeaderLineStrip(dirs: string, country: string, file: string, names: seq<string>)
    requires |names| >= 1 && PlainName(names[|names| - 1])
    ensures Strip(HeaderLine(dirs, country, file, names)) == HeaderLine(dirs, country, file, names)
  {
    var text := Join(names, Sep);
    var last := names[|names| - 1];
    PlainNameEnd(last);
    JoinEndsWithLast(names, Sep);
    assert text[|text| - 1] == last[|last| - 1];
    HeaderLineStripped(ListPath(dirs, country, file), text);
  }

  lemma PlainNameEnd(n: string)
    requires PlainName(n)
    ensures !IsSpace(n[|n| - 1])
  {
  }

  /** A header line is recognised with its path. */
  lemma HeaderLinePath(dirs: string, country: string, file: string, names: seq<string>)
    requires PathText(dirs) && PathText(country) && PathText(file) && |names| >= 1
    ensures HeaderPath(HeaderLine(dirs, country, file, names)) == Some(ListPath(dirs, country, file))
  {
    var path := ListPath(dirs, country, file);
    var text := Join(names, Sep);
    ListPathText(dirs, country, file);
    HeaderOfPath(path, ": " + text);
    assert HeaderOpen + path + HeaderClose + ": " + text == HeaderOpen + path + HeaderClose + (": " + text);
  }

  /** The clubs part of a header line is the joined list after the colon. */
  lemma HeaderLineClubs(dirs: string, country: string, file: string, names: seq<string>)
    requires PathText(dirs) && PathText(country) && PathText(file) && |names| >= 1
    ensures ClubsPart(HeaderLine(dirs, country, file, names)) == " " + Join(names, Sep)
  {
    ListPathText(dirs, country, file);
    ClubsPartAfterHeader(ListPath(dirs, country, file), Join(names, Sep));
  }

  lemma ListPathText(dirs: string, country: string, file: string)
    requires PathText(dirs) && PathText(country) && PathText(file)
    ensures PathText(ListPath(dirs, country, file)) && |ListPath(dirs, country, file)| >= 1
  {
    var path := ListPath(dirs, country, file);
    assert path == dirs + ("/" + country + "/" + file);
  }

  /** The clubs part of a header line is the text after `: `, with its leading space. */
  lemma ClubsPartAfterHeader(path: string, text: string)
    requires PathText(path)
    ensures ClubsPart(HeaderOpen + path + HeaderClose + ": " + text) == " " + text
  {
    var head := HeaderOpen + path + HeaderClose;
    assert ':' !in head by {
      assert forall i :: 0 <= i < |path| ==> path[i] != ':';
    }
    assert head + ": " + text == head + [':'] + (" " + text);
    TextAfterFirst(head, " " + text, ':');
  }

  /** A header line ending in a non-space character is already stripped. */
  lemma HeaderLineStripped(path: string, text: string)
    requires text != [] && !IsSpace(text[|text| - 1])
    ensures Strip(HeaderOpen + path + HeaderClose + ": " + text) == HeaderOpen + path + HeaderClose + ": " + text
  {
    var line := HeaderOpen + path + HeaderClose + ": " + text;
    assert line[0] == '*' && line[|line| - 1] == text[|text| - 1];
    StripUnchanged(line);
  }

  /** A header line written by the report is parsed into its clubs, all under the country
      directory of its path, and that country becomes the current one. */
  lemma HeaderLineRoundTrip(dirs: string, country: string, file: string, names: seq<string>, current: Option<string>)
    requires PathText(dirs) && PathText(country) && PathText(file) && '/' !in country && '/' !in file
    requires |names| >= 1 && forall i :: 0 <= i < |names| ==> PlainName(names[i])
    ensures LineStep(HeaderLine(dirs, country, file, names), current) == Emit(Tag(names, country), Some(country))
  {
    var line := HeaderLine(dirs, country, file, names);
    HeaderLineStrip(dirs, country, file, names);
    HeaderLinePath(dirs, country, file, names);
    HeaderLineClubs(dirs, country, file, names);
    PathCountryOf(dirs, country, file);
    ClubListRoundTrip(names);
    StripIdempotent(line);
  }
}
