/** The issue composer of src/runtime/mod.rs: `generate_title` and
    `generate_body`, folds over the report map in ascending key order. */
module Composer {
  import opened Text
  import opened OrderedMap
  import opened Report

  // ---------------------------------------------------------------------
  // Title
  // ---------------------------------------------------------------------

  /** The fold of `generate_title`: a key is appended directly to an empty
      accumulator and after ", " otherwise. */
  function TitleFold(keys: seq<string>, acc: string): string
  {
    if keys == [] then acc
    else TitleFold(keys[1..], if acc == "" then acc + keys[0] else acc + ", " + keys[0])
  }

  /** `generate_title(map)`. */
  function Title(m: ReportSet): (t: string)
    ensures m.entries == [] ==> t == ""
  {
    TitleFold(m.Keys(), "")
  }

  /** With a non-empty accumulator and non-empty keys the fold appends the
      keys joined by ", ". */
  lemma {:induction false} TitleFoldAppends(keys: seq<string>, acc: string)
    requires acc != ""
    ensures TitleFold(keys, acc) == if keys == [] then acc else acc + ", " + Join(keys, ", ")
  {
    if keys != [] {
      var acc' := acc + ", " + keys[0];
      TitleFoldAppends(keys[1..], acc');
      if |keys| > 1 {
        JoinCons(keys[0], keys[1..], ", ");
        assert keys == [keys[0]] + keys[1..];
      }
    }
  }

  /** When no key is empty the title is the keys, in ascending order,
      separated by ", ". */
  lemma TitleIsJoin(m: ReportSet)
    requires forall i :: 0 <= i < |m.entries| ==> m.entries[i].0 != ""
    ensures Title(m) == Join(m.Keys(), ", ")
  {
    var keys := m.Keys();
    if keys != [] {
      assert keys[0] != "";
      assert "" + keys[0] == keys[0];
      assert Title(m) == TitleFold(keys[1..], keys[0]);
      TitleFoldAppends(keys[1..], keys[0]);
      if |keys| > 1 {
        JoinCons(keys[0], keys[1..], ", ");
        assert keys == [keys[0]] + keys[1..];
      }
    }
  }

  /** The title of a parsed report is its IDs in ascending order joined by
      ", ": no key of a report is empty. */
  lemma ReportTitle(blocks: seq<string>)
    ensures Title(Collect(blocks)) == Join(Collect(blocks).Keys(), ", ")
    ensures forall i :: 0 <= i < |Collect(blocks).entries| - 1 ==>
      Less(Collect(blocks).Keys()[i], Collect(blocks).Keys()[i + 1])
  {
    var m := Collect(blocks);
    CollectValues(blocks);
    forall i | 0 <= i < |m.entries| ensures m.entries[i].0 != "" {
      MapOfEntries(m.entries);
      assert IsKey(m.entries[i].0);
    }
    TitleIsJoin(m);
  }

  // ---------------------------------------------------------------------
  // Body
  // ---------------------------------------------------------------------

  /** The Markdown section `generate_body` writes for one advisory: a
      heading with the ID between two double exclamation marks, the URL,
      and the raw block inside a four-backtick fence. */
  function Section(id: string, url: string, raw: string): string
  {
    "# \U{203C}\U{FE0F} " + id + " \U{203C}\U{FE0F}\n" + url + "\n\n````\n" + raw + "\n````\n\n"
  }

  /** The section of one map entry. */
  function EntrySection(e: (string, (string, Rustsec))): string
  {
    Section(e.0, e.1.1.url, e.1.0)
  }

  /** The fold of `generate_body`: each entry's section appended in turn. */
  function BodyFold(es: seq<(string, (string, Rustsec))>, acc: string): string
  {
    if es == [] then acc else BodyFold(es[1..], acc + EntrySection(es[0]))
  }

  /** `generate_body(map)`. */
  function Body(m: ReportSet): (b: string)
    ensures m.entries == [] ==> b == ""
  {
    BodyFold(m.entries, "")
  }

  /** The sections of the entries, one after another. */
  function Sections(es: seq<(string, (string, Rustsec))>): string
  {
    if es == [] then "" else EntrySection(es[0]) + Sections(es[1..])
  }

  lemma {:induction false} BodyFoldAppends(es: seq<(string, (string, Rustsec))>, acc: string)
    ensures BodyFold(es, acc) == acc + Sections(es)
  {
    if es != [] {
      BodyFoldAppends(es[1..], acc + EntrySection(es[0]));
    }
  }

  lemma {:induction false} SectionsAppend(a: seq<(string, (string, Rustsec))>, b: seq<(string, (string, Rustsec))>)
    ensures Sections(a + b) == Sections(a) + Sections(b)
  {
    if a != [] {
      assert (a + b)[1..] == a[1..] + b;
      SectionsAppend(a[1..], b);
    } else {
      assert a + b == b;
    }
  }

  /** The body is the sections of the entries in ascending key order: the
      section of entry `i` comes after those of all smaller keys and before
      those of all greater keys, and it holds the raw block verbatim. */
  lemma BodySections(m: ReportSet, i: nat)
    requires i < |m.entries|
    ensures Body(m) == Sections(m.entries[..i]) +
      Section(m.Keys()[i], m.entries[i].1.1.url, m.entries[i].1.0) +
      Sections(m.entries[i + 1..])
  {
    var es := m.entries;
    BodyFoldAppends(es, "");
    assert es == es[..i] + [es[i]] + es[i + 1..];
    SectionsAppend(es[..i] + [es[i]], es[i + 1..]);
    SectionsAppend(es[..i], [es[i]]);
  }

  /** Title and body depend only on the map's contents, not on how it was
      built: the output is reproducible. */
  lemma ComposeDeterministic(a: ReportSet, b: ReportSet)
    requires a.Valid() && b.Valid() && a.ToMap() == b.ToMap()
    ensures Title(a) == Title(b) && Body(a) == Body(b)
  {
    Canonical(a.entries, b.entries);
  }

  // ---------------------------------------------------------------------
  // The four-advisory report of the unit tests
  // ---------------------------------------------------------------------

  /** The IDs of the four test blocks, in the order they appear. */
  const TestIds: seq<string> := ["RUSTSEC-2020-0099", "RUSTSEC-2022-0040",
                                 "RUSTSEC-2021-0065", "RUSTSEC-2018-0018"]

  /** The title the unit test expects. */
  const TestTitle := "RUSTSEC-2018-0018, RUSTSEC-2020-0099, RUSTSEC-2021-0065, RUSTSEC-2022-0040"

  lemma TestIdsOrdered()
    ensures Less(TestIds[3], TestIds[0]) && Less(TestIds[0], TestIds[2]) && Less(TestIds[2], TestIds[1])
  {
    var p := "RUSTSEC-20";
    assert TestIds[3] == p + "18-0018" && TestIds[0] == p + "20-0099";
    assert TestIds[2] == p + "21-0065" && TestIds[1] == p + "22-0040";
    assert Less("18-0018", "20-0099");
    assert Less("0-0099", "1-0065");
    assert Less("20-0099", "21-0065");
    assert Less("1-0065", "2-0040");
    assert Less("21-0065", "22-0040");
    LessCommonPrefix(p, "18-0018", "20-0099");
    LessCommonPrefix(p, "20-0099", "21-0065");
    LessCommonPrefix(p, "21-0065", "22-0040");
  }

  /** Four pairs whose keys arrive in the test's order b, d, c, a, with
      a < b < c < d, are listed as a, b, c, d. */
  lemma FourInOrder<V>(ps: seq<(string, V)>, a: string, b: string, c: string, d: string)
    requires Less(a, b) && Less(b, c) && Less(c, d)
    requires |ps| == 4 && ps[0].0 == b && ps[1].0 == d && ps[2].0 == c && ps[3].0 == a
    ensures FromPairs(ps).Keys() == [a, b, c, d]
  {
    var m := FromPairs(ps);
    var ks := [a, b, c, d];
    FourKeys(ps, a, b, c, d);
    KeysInOrder(m.entries, ks);
  }

  lemma FourKeys<V>(ps: seq<(string, V)>, a: string, b: string, c: string, d: string)
    requires |ps| == 4 && ps[0].0 == b && ps[1].0 == d && ps[2].0 == c && ps[3].0 == a
    ensures forall k :: k in FromPairs(ps).ToMap() <==> k in [a, b, c, d]
  {
    var m := FromPairs(ps).ToMap();
    FromPairsKeys(ps);
    assert ps[0].0 in m && ps[1].0 in m && ps[2].0 in m && ps[3].0 in m;
    forall k | k in m ensures k == a || k == b || k == c || k == d {
      var i :| 0 <= i < |ps| && ps[i].0 == k;
    }
  }

  /** The title of four non-empty keys. */
  lemma FourTitle(m: ReportSet, a: string, b: string, c: string, d: string)
    requires m.Keys() == [a, b, c, d]
    requires a != "" && b != "" && c != "" && d != ""
    ensures Title(m) == a + ", " + b + ", " + c + ", " + d
  {
    var ks := m.Keys();
    assert forall i :: 0 <= i < |m.entries| ==> m.entries[i].0 == ks[i];
    TitleIsJoin(m);
    JoinCons(c, [d], ", ");
    assert [c] + [d] == [c, d];
    JoinCons(b, [c, d], ", ");
    assert [b] + [c, d] == [b, c, d];
    JoinCons(a, [b, c, d], ", ");
    assert [a] + [b, c, d] == ks;
  }

  // The expected title, built one ID at a time. Each step is a separate
  // lemma so that no single proof compares long literals more than once.

  lemma TitleFirstTwo()
    ensures TestIds[3] + ", " + TestIds[0] == "RUSTSEC-2018-0018, RUSTSEC-2020-0099"
  {
  }

  lemma TitleFirstThree()
    ensures "RUSTSEC-2018-0018, RUSTSEC-2020-0099" + ", " + TestIds[2] ==
      "RUSTSEC-2018-0018, RUSTSEC-2020-0099, RUSTSEC-2021-0065"
  {
  }

  lemma TitleAllFour()
    ensures "RUSTSEC-2018-0018, RUSTSEC-2020-0099, RUSTSEC-2021-0065" + ", " + TestIds[1] == TestTitle
  {
  }

  lemma TestTitleText()
    ensures TestIds[3] + ", " + TestIds[0] + ", " + TestIds[2] + ", " + TestIds[1] == TestTitle
  {
    TitleFirstTwo();
    TitleFirstThree();
    TitleAllFour();
  }

  /** A report of four blocks whose IDs arrive in the order b, d, c, a, with
      a < b < c < d: four entries, and the title lists the IDs in ascending
      order. */
  lemma FourBlocks(blocks: seq<string>, a: string, b: string, c: string, d: string)
    requires Less(a, b) && Less(b, c) && Less(c, d)
    requires a != "" && b != "" && c != "" && d != ""
    requires |blocks| == 4
    requires IdOf(blocks[0]) == b && IdOf(blocks[1]) == d && IdOf(blocks[2]) == c && IdOf(blocks[3]) == a
    ensures |Collect(blocks).entries| == 4
    ensures Title(Collect(blocks)) == a + ", " + b + ", " + c + ", " + d
  {
    var ps := KeyedAll(blocks);
    assert ps[0].0 == b && ps[1].0 == d && ps[2].0 == c && ps[3].0 == a;
    FourInOrder(ps, a, b, c, d);
    FourTitle(Collect(blocks), a, b, c, d);
  }

  /** Four blocks with the test's IDs give four entries and the title the
      test expects. */
  lemma TestReport(blocks: seq<string>)
    requires |blocks| == 4
    requires forall i :: 0 <= i < 4 ==> IdOf(blocks[i]) == TestIds[i]
    ensures |Collect(blocks).entries| == 4
    ensures Title(Collect(blocks)) == TestTitle
  {
    TestIdsOrdered();
    FourBlocks(blocks, TestIds[3], TestIds[0], TestIds[2], TestIds[1]);
    TestTitleText();
  }
}
