/** The report parser of src/runtime/mod.rs: `parse`, `parse_rustsec`,
    `parse_caps` and the `Rustsec` record. The compiled patterns
    `<Label> +(<Prefix>.*)` are replaced by explicit scans of the text. */
module Report {
  import opened Options
  import opened Text
  import opened OrderedMap

  // ---------------------------------------------------------------------
  // Field patterns
  // ---------------------------------------------------------------------

  /** The pattern `<field> +(<prefix>.*)`: the field name, one or more spaces,
      then a captured value that starts with `prefix` and runs to the end
      of its line. */
  datatype Pattern = Pattern(field: string, prefix: string)

  const CratePattern := Pattern("Crate:", "")
  const VersionPattern := Pattern("Version:", "")
  const WarningPattern := Pattern("Warning:", "")
  const TitlePattern := Pattern("Title:", "")
  const DatePattern := Pattern("Date:", "")
  const SolutionPattern := Pattern("Solution:", "")
  const IdPattern := Pattern("ID:", "RUSTSEC")
  const UrlPattern := Pattern("URL:", "https:")

  const NoId := "No ID"
  const NoUrl := "No URL"

  /** A match of `pat` in `s` that starts at `p`, whose capture is `s[r..e]`:
      the label at `p`, a maximal non-empty run of spaces up to `r` (the
      repetition is greedy, and none of the prefixes starts with a space),
      and from `r` the rest of the line, which starts with the prefix. The
      match is not anchored to the start of a line and nothing is trimmed. */
  ghost predicate MatchShape(s: string, pat: Pattern, p: nat, r: nat, e: nat)
  {
    var q := p + |pat.field|;
    q < r <= e <= |s| &&
    s[p..q] == pat.field &&
    (forall i :: q <= i < r ==> s[i] == ' ') &&
    (r < |s| ==> s[r] != ' ') &&
    (forall i :: r <= i < e ==> s[i] != '\n') &&
    (e < |s| ==> s[e] == '\n') &&
    pat.prefix <= s[r..e]
  }

  /** The pattern matches at `p`. */
  ghost predicate MatchesAt(s: string, pat: Pattern, p: nat)
  {
    exists r: nat, e: nat :: MatchShape(s, pat, p, r, e)
  }

  /** End of the run of spaces starting at `q`. */
  function SpacesEnd(s: string, q: nat): (r: nat)
    requires q <= |s|
    ensures q <= r <= |s|
    ensures forall i :: q <= i < r ==> s[i] == ' '
    ensures r < |s| ==> s[r] != ' '
    decreases |s| - q
  {
    if q == |s| || s[q] != ' ' then q else SpacesEnd(s, q + 1)
  }

  /** A match starting at `p` has exactly one shape. */
  lemma ShapeUnique(s: string, pat: Pattern, p: nat, r: nat, e: nat)
    requires MatchShape(s, pat, p, r, e)
    ensures r == SpacesEnd(s, p + |pat.field|) && e == FindNl(s, r)
  {
    var q := p + |pat.field|;
    var r' := SpacesEnd(s, q);
    var e' := FindNl(s, r);
  }

  /** When the scan at `p` fails, the pattern has no match there. */
  lemma NoMatchAt(s: string, pat: Pattern, p: nat)
    requires p + |pat.field| <= |s| ==>
      var q := p + |pat.field|;
      var r := SpacesEnd(s, q);
      !(s[p..q] == pat.field && q < r && pat.prefix <= s[r..FindNl(s, r)])
    ensures forall r: nat, e: nat :: !MatchShape(s, pat, p, r, e)
    ensures !MatchesAt(s, pat, p)
  {
    forall r: nat, e: nat | MatchShape(s, pat, p, r, e) ensures false {
      ShapeUnique(s, pat, p, r, e);
    }
  }

  /** Try the pattern at position `p`: the capture when it matches there. */
  function TryAt(s: string, pat: Pattern, p: nat): (c: Option<string>)
    requires p <= |s|
    ensures c.None? <==> !MatchesAt(s, pat, p)
    ensures forall r: nat, e: nat :: MatchShape(s, pat, p, r, e) ==> c == Some(s[r..e])
  {
    var q := p + |pat.field|;
    if q <= |s| && s[p..q] == pat.field && q < SpacesEnd(s, q) &&
       pat.prefix <= s[SpacesEnd(s, q)..FindNl(s, SpacesEnd(s, q))] then
      var r := SpacesEnd(s, q);
      var e := FindNl(s, r);
      assert MatchShape(s, pat, p, r, e);
      assert forall r': nat, e': nat :: MatchShape(s, pat, p, r', e') ==> r' == r && e' == e by {
        forall r': nat, e': nat | MatchShape(s, pat, p, r', e') ensures r' == r && e' == e {
          ShapeUnique(s, pat, p, r', e');
        }
      }
      Some(s[r..e])
    else
      NoMatchAt(s, pat, p);
      None
  }

  /** The capture of the leftmost match at or after `p`. */
  function FirstCapture(s: string, pat: Pattern, p: nat): (c: Option<string>)
    requires p <= |s|
    ensures c.None? <==> forall j: nat :: p <= j <= |s| ==> !MatchesAt(s, pat, j)
    ensures forall j: nat, r: nat, e: nat ::
      p <= j && MatchShape(s, pat, j, r, e) && (forall i: nat :: p <= i < j ==> !MatchesAt(s, pat, i))
      ==> c == Some(s[r..e])
    ensures c.Some? ==> pat.prefix <= c.value
    decreases |s| - p
  {
    var here := TryAt(s, pat, p);
    if here.Some? then
      assert MatchesAt(s, pat, p) by {
        var q := p + |pat.field|;
        assert MatchShape(s, pat, p, SpacesEnd(s, q), FindNl(s, SpacesEnd(s, q)));
      }
      here
    else if p == |s| then
      None
    else
      FirstCapture(s, pat, p + 1)
  }

  /** `parse_caps(regex, s, default)`: the capture of the leftmost match of
      the pattern, or `default` when the pattern occurs nowhere. */
  function ParseCaps(pat: Pattern, s: string, default: string): (v: string)
    ensures (forall j: nat :: j <= |s| ==> !MatchesAt(s, pat, j)) ==> v == default
    ensures forall j: nat, r: nat, e: nat ::
      MatchShape(s, pat, j, r, e) && (forall i: nat :: i < j ==> !MatchesAt(s, pat, i))
      ==> v == s[r..e]
    ensures v == default || pat.prefix <= v
  {
    FirstCapture(s, pat, 0).UnwrapOr(default)
  }

  // ---------------------------------------------------------------------
  // Records
  // ---------------------------------------------------------------------

  /** One advisory, every field as text. */
  datatype Rustsec = Rustsec(
    id: string,
    url: string,
    krate: string,
    version: string,
    warning: string,
    title: string,
    date: string,
    solution: string)

  /** The record a block with no recognisable field gives. */
  const Placeholders := Rustsec(NoId, NoUrl, "No Crate", "No Version", "No Warning",
                                "No Title", "No Date", "No Solution")

  /** `parse_rustsec`: each field by its own pattern, with its placeholder
      when absent. */
  function ParseRustsec(block: string): (r: Rustsec)
    ensures r.id == NoId || "RUSTSEC" <= r.id
    ensures r.url == NoUrl || "https:" <= r.url
  {
    Rustsec(
      ParseCaps(IdPattern, block, NoId),
      ParseCaps(UrlPattern, block, NoUrl),
      ParseCaps(CratePattern, block, "No Crate"),
      ParseCaps(VersionPattern, block, "No Version"),
      ParseCaps(WarningPattern, block, "No Warning"),
      ParseCaps(TitlePattern, block, "No Title"),
      ParseCaps(DatePattern, block, "No Date"),
      ParseCaps(SolutionPattern, block, "No Solution"))
  }

  /** The key a block is filed under. */
  function IdOf(block: string): string
  {
    ParseRustsec(block).id
  }

  /** Keys are never empty: either the placeholder or an advisory ID. */
  predicate IsKey(k: string)
  {
    k == NoId || "RUSTSEC" <= k
  }

  /** A text too short to hold any label gives every placeholder. */
  lemma EmptyBlock()
    ensures ParseRustsec("") == Placeholders
  {
    var pats := [IdPattern, UrlPattern, CratePattern, VersionPattern, WarningPattern,
                 TitlePattern, DatePattern, SolutionPattern];
    forall k, j: nat | 0 <= k < |pats| && j <= 0 ensures !MatchesAt("", pats[k], j) {
    }
  }

  // ---------------------------------------------------------------------
  // The report map
  // ---------------------------------------------------------------------

  /** The (raw block, record) pairs of a report, keyed by ID. */
  type ReportSet = OMap<(string, Rustsec)>

  /** Lines of the audit tool's preamble at the head of its report. */
  const HeaderLines := 4

  /** The blocks `parse` files: the "\n\n"-separated pieces of the output,
      the first one without its first `HeaderLines` lines. */
  function Blocks(output: string): seq<string>
  {
    var parts := Split(output);
    parts[0 := SkipLines(parts[0], HeaderLines)]
  }

  /** A block paired with its record, keyed by the record's ID. */
  function Keyed(block: string): (string, (string, Rustsec))
  {
    var rec := ParseRustsec(block);
    (rec.id, (block, rec))
  }

  /** The (key, value) pairs of the blocks, in order. */
  function KeyedAll(blocks: seq<string>): (ps: seq<(string, (string, Rustsec))>)
    ensures |ps| == |blocks|
    ensures forall i :: 0 <= i < |blocks| ==> ps[i] == Keyed(blocks[i])
  {
    seq(|blocks|, i requires 0 <= i < |blocks| => Keyed(blocks[i]))
  }

  /** The map the blocks are collected into, one insert per block in order. */
  function Collect(blocks: seq<string>): ReportSet
  {
    FromPairs(KeyedAll(blocks))
  }

  /** `parse(output)`. */
  method Parse(output: string) returns (m: ReportSet)
    ensures m == Collect(Blocks(output))
    ensures m.Valid()
    ensures |m.entries| <= |Split(output)|
    ensures forall k :: k in m.ToMap() ==> IsKey(k) && m.ToMap()[k].1.id == k
    ensures forall k :: k in m.ToMap() ==> m.ToMap()[k].1 == ParseRustsec(m.ToMap()[k].0)
  {
    var splits := Split(output);
    splits := splits[0 := SkipLines(splits[0], HeaderLines)];
    m := Empty();
    var i := 0;
    assert splits[..0] == [];
    while i < |splits|
      invariant 0 <= i <= |splits|
      invariant m == Collect(splits[..i])
    {
      var rec := ParseRustsec(splits[i]);
      CollectStep(splits, i);
      m := m.Insert(rec.id, (splits[i], rec));
      i := i + 1;
    }
    assert splits[..i] == splits;
    CollectSize(splits);
    CollectValues(splits);
  }

  /** One more block is one more insert. */
  lemma CollectStep(blocks: seq<string>, i: nat)
    requires i < |blocks|
    ensures Collect(blocks[..i + 1]) ==
      Collect(blocks[..i]).Insert(IdOf(blocks[i]), (blocks[i], ParseRustsec(blocks[i])))
  {
    var ps := KeyedAll(blocks[..i + 1]);
    assert ps[..i] == KeyedAll(blocks[..i]);
    assert ps[i] == Keyed(blocks[i]);
  }

  // ---------------------------------------------------------------------
  // Properties of the collected map
  // ---------------------------------------------------------------------

  /** The keys are exactly the IDs of the blocks. */
  lemma CollectKeys(blocks: seq<string>)
    ensures forall k :: k in Collect(blocks).ToMap() <==>
      exists i :: 0 <= i < |blocks| && IdOf(blocks[i]) == k
  {
    var ps := KeyedAll(blocks);
    FromPairsKeys(ps);
    forall k | k in Collect(blocks).ToMap() ensures exists i :: 0 <= i < |blocks| && IdOf(blocks[i]) == k {
      var i :| 0 <= i < |ps| && ps[i].0 == k;
      assert IdOf(blocks[i]) == k;
    }
    forall i | 0 <= i < |blocks| ensures IdOf(blocks[i]) in Collect(blocks).ToMap() {
      assert ps[i].0 == IdOf(blocks[i]);
    }
  }

  /** Every entry is some block together with its record, filed under the
      record's own ID. */
  lemma CollectValues(blocks: seq<string>)
    ensures forall k :: k in Collect(blocks).ToMap() ==>
      var v := Collect(blocks).ToMap()[k];
      v.1 == ParseRustsec(v.0) && v.1.id == k && IsKey(k) &&
      exists i :: 0 <= i < |blocks| && v.0 == blocks[i]
  {
    var ps := KeyedAll(blocks);
    FromPairsValues(ps);
    forall k | k in Collect(blocks).ToMap()
      ensures var v := Collect(blocks).ToMap()[k];
        v.1 == ParseRustsec(v.0) && v.1.id == k && IsKey(k) &&
        exists i :: 0 <= i < |blocks| && v.0 == blocks[i]
    {
      var i :| 0 <= i < |ps| && ps[i] == (k, Collect(blocks).ToMap()[k]);
      assert ps[i] == Keyed(blocks[i]);
    }
  }

  /** Last wins: a block whose ID no later block repeats is the one kept. */
  lemma CollectLastWins(blocks: seq<string>, i: nat)
    requires i < |blocks|
    requires forall j :: i < j < |blocks| ==> IdOf(blocks[j]) != IdOf(blocks[i])
    ensures IdOf(blocks[i]) in Collect(blocks).ToMap()
    ensures Collect(blocks).ToMap()[IdOf(blocks[i])] == (blocks[i], ParseRustsec(blocks[i]))
  {
    var ps := KeyedAll(blocks);
    forall j | i < j < |ps| ensures ps[j].0 != ps[i].0 {
      assert ps[j].0 == IdOf(blocks[j]);
    }
    FromPairsLastWins(ps, i);
  }

  /** At most one entry per block, and exactly one when the IDs differ. */
  lemma CollectSize(blocks: seq<string>)
    ensures |Collect(blocks).entries| <= |blocks|
    ensures (forall i, j :: 0 <= i < j < |blocks| ==> IdOf(blocks[i]) != IdOf(blocks[j])) ==>
      |Collect(blocks).entries| == |blocks|
  {
    var ps := KeyedAll(blocks);
    FromPairsSize(ps);
    if forall i, j :: 0 <= i < j < |blocks| ==> IdOf(blocks[i]) != IdOf(blocks[j]) {
      forall i, j | 0 <= i < j < |ps| ensures ps[i].0 != ps[j].0 {
        assert ps[i].0 == IdOf(blocks[i]) && ps[j].0 == IdOf(blocks[j]);
      }
    }
  }

  /** Only the first block is altered: it loses its first `HeaderLines`
      lines and every other block is kept verbatim. When the first piece is
      a four-line preamble followed by text without "\r" or a final "\n",
      the first block is exactly that text. */
  lemma OnlyFirstBlockAltered(output: string)
    ensures |Blocks(output)| == |Split(output)|
    ensures Blocks(output)[0] == SkipLines(Split(output)[0], HeaderLines)
    ensures Blocks(output)[1..] == Split(output)[1..]
    ensures forall hs, rest ::
      |hs| == HeaderLines && Split(output)[0] == Terminated(hs) + rest &&
      (forall k :: 0 <= k < |hs| ==> NoNewline(hs[k])) &&
      (forall j :: 0 <= j < |rest| ==> rest[j] != '\r') &&
      (rest == "" || rest[|rest| - 1] != '\n')
      ==> Blocks(output)[0] == rest
  {
    forall hs, rest |
      |hs| == HeaderLines && Split(output)[0] == Terminated(hs) + rest &&
      (forall k :: 0 <= k < |hs| ==> NoNewline(hs[k])) &&
      (forall j :: 0 <= j < |rest| ==> rest[j] != '\r') &&
      (rest == "" || rest[|rest| - 1] != '\n')
      ensures Blocks(output)[0] == rest
    {
      SkipHeader(hs, rest);
    }
  }

  /** `parse("")` files a single entry under "No ID" holding every placeholder. */
  lemma ParseEmpty()
    ensures Collect(Blocks("")).entries == [(NoId, ("", Placeholders))]
  {
    assert FindSep("", 0) == 0;
    assert Split("") == [""];
    assert Lines("") == [];
    assert Blocks("") == [""];
    EmptyBlock();
    assert KeyedAll([""]) == [(NoId, ("", Placeholders))];
    assert KeyedAll([""])[..0] == [];
  }
}
