/**
 * The reverse department mapping of `remove_duplicate_ben_ids`: every
 * lower-cased full department name and every lower-cased abbreviation is
 * mapped to an abbreviation, later assignments overwriting earlier ones, and
 * a report's department is looked up by its stripped, lower-cased text.
 */
module DeptLookup {
  import opened Wrappers
  import opened Strings
  import opened Departments

  /** One dictionary assignment `m[key] = value`. */
  type Write = (string, string)

  /** The assignments made for one department, in loop order. */
  function EntryWrites(name: string, abbrs: seq<string>): (w: seq<Write>)
    ensures |w| == 2 * |abbrs|
  {
    if abbrs == [] then []
    else
      var a := abbrs[|abbrs| - 1];
      EntryWrites(name, abbrs[..|abbrs| - 1]) + [(Lower(name), a), (Lower(a), a)]
  }

  /** The assignments made for a whole department mapping, in loop order. */
  function RevWrites(depts: seq<DeptEntry>): seq<Write> {
    if depts == [] then []
    else
      var e := depts[|depts| - 1];
      RevWrites(depts[..|depts| - 1]) + EntryWrites(e.name, e.abbrs)
  }

  /** The dictionary built by performing the assignments in order on an empty one. */
  function Assign(w: seq<Write>): map<string, string> {
    if w == [] then map[]
    else
      var p := w[|w| - 1];
      Assign(w[..|w| - 1])[p.0 := p.1]
  }

  /** `reverse_dept_mapping` for a department mapping. */
  function ReverseMapping(depts: seq<DeptEntry>): map<string, string> {
    Assign(RevWrites(depts))
  }

  /** One more abbreviation adds its two assignments, name first. */
  lemma AssignStep(before: seq<Write>, name: string, abbrs: seq<string>, j: nat)
    requires j < |abbrs|
    ensures Assign(before + EntryWrites(name, abbrs[..j + 1])) ==
      Assign(before + EntryWrites(name, abbrs[..j]))[Lower(name) := abbrs[j]][Lower(abbrs[j]) := abbrs[j]]
  {
    var a := abbrs[j];
    var w := before + EntryWrites(name, abbrs[..j]);
    assert abbrs[..j + 1][..j] == abbrs[..j];
    assert before + EntryWrites(name, abbrs[..j + 1]) == w + [(Lower(name), a)] + [(Lower(a), a)];
    assert (w + [(Lower(name), a)] + [(Lower(a), a)])[..|w| + 1] == w + [(Lower(name), a)];
    assert (w + [(Lower(name), a)])[..|w|] == w;
  }

  /** One more department appends its assignments. */
  lemma RevWritesStep(depts: seq<DeptEntry>, i: nat)
    requires i < |depts|
    ensures RevWrites(depts[..i + 1]) == RevWrites(depts[..i]) + EntryWrites(depts[i].name, depts[i].abbrs[..|depts[i].abbrs|])
  {
    assert depts[..i + 1][..i] == depts[..i];
    assert depts[i].abbrs[..|depts[i].abbrs|] == depts[i].abbrs;
  }

  /**
   * The nested loop that fills `reverse_dept_mapping`: for each department
   * and each of its abbreviations, the lower-cased full name and the
   * lower-cased abbreviation are both mapped to the abbreviation.
   */
  method ReverseDeptMapping(depts: seq<DeptEntry>) returns (m: map<string, string>)
    ensures m == ReverseMapping(depts)
  {
    m := map[];
    var i := 0;
    while i < |depts|
      invariant 0 <= i <= |depts|
      invariant m == Assign(RevWrites(depts[..i]))
    {
      var e := depts[i];
      var j := 0;
      assert e.abbrs[..0] == [];
      assert RevWrites(depts[..i]) + EntryWrites(e.name, []) == RevWrites(depts[..i]);
      while j < |e.abbrs|
        invariant 0 <= j <= |e.abbrs|
        invariant m == Assign(RevWrites(depts[..i]) + EntryWrites(e.name, e.abbrs[..j]))
      {
        var a := e.abbrs[j];
        AssignStep(RevWrites(depts[..i]), e.name, e.abbrs, j);
        m := m[Lower(e.name) := a];
        m := m[Lower(a) := a];
        j := j + 1;
      }
      RevWritesStep(depts, i);
      i := i + 1;
    }
    assert depts[..|depts|] == depts;
  }

  /** The assignments for one department are exactly its name and abbreviation pairs. */
  lemma {:induction false} EntryWritesOf(name: string, abbrs: seq<string>)
    ensures forall p :: p in EntryWrites(name, abbrs) <==>
      exists a :: a in abbrs && (p == (Lower(name), a) || p == (Lower(a), a))
  {
    if abbrs != [] {
      var init := abbrs[..|abbrs| - 1];
      EntryWritesOf(name, init);
      assert abbrs == init + [abbrs[|abbrs| - 1]];
    }
  }

  /**
   * Every assignment pairs a department's lower-cased name, or the
   * lower-cased abbreviation itself, with one of that department's abbreviations.
   */
  lemma {:induction false} RevWritesOf(depts: seq<DeptEntry>)
    ensures forall p :: p in RevWrites(depts) <==>
      exists i, a :: 0 <= i < |depts| && a in depts[i].abbrs && (p == (Lower(depts[i].name), a) || p == (Lower(a), a))
  {
    if depts != [] {
      var init := depts[..|depts| - 1];
      var e := depts[|depts| - 1];
      RevWritesOf(init);
      EntryWritesOf(e.name, e.abbrs);
      forall p ensures p in RevWrites(depts) <==>
        exists i, a :: 0 <= i < |depts| && a in depts[i].abbrs && (p == (Lower(depts[i].name), a) || p == (Lower(a), a))
      {
        if p in RevWrites(init) {
          var i, a :| 0 <= i < |init| && a in init[i].abbrs && (p == (Lower(init[i].name), a) || p == (Lower(a), a));
          assert depts[i] == init[i];
        }
        if exists i, a :: 0 <= i < |depts| && a in depts[i].abbrs && (p == (Lower(depts[i].name), a) || p == (Lower(a), a)) {
          var i, a :| 0 <= i < |depts| && a in depts[i].abbrs && (p == (Lower(depts[i].name), a) || p == (Lower(a), a));
          if i < |depts| - 1 {
            assert init[i] == depts[i];
          }
        }
      }
    }
  }

  /** Every key of the built dictionary was assigned, and its value is one of the values assigned to it. */
  lemma {:induction false} AssignedFrom(w: seq<Write>, k: string)
    requires k in Assign(w)
    ensures (k, Assign(w)[k]) in w
  {
    var p := w[|w| - 1];
    if p.0 != k {
      AssignedFrom(w[..|w| - 1], k);
    }
  }

  /** A key all of whose assignments carry the same value ends up with that value. */
  lemma {:induction false} AssignAgree(w: seq<Write>, k: string, v: string)
    requires (k, v) in w
    requires forall p :: p in w && p.0 == k ==> p.1 == v
    ensures k in Assign(w) && Assign(w)[k] == v
  {
    var init := w[..|w| - 1];
    var p := w[|w| - 1];
    assert w == init + [p];
    if p.0 != k {
      AssignAgree(init, k, v);
    }
  }

  /** Assignments to other keys leave a key's value alone. */
  lemma {:induction false} AssignUntouched(w: seq<Write>, tail: seq<Write>, k: string)
    requires k in Assign(w)
    requires forall p :: p in tail ==> p.0 != k
    ensures k in Assign(w + tail) && Assign(w + tail)[k] == Assign(w)[k]
  {
    if tail == [] {
      assert w + tail == w;
    } else {
      var init := tail[..|tail| - 1];
      assert tail[|tail| - 1] in tail;
      assert forall p :: p in init ==> p in tail;
      assert (w + tail)[..|w + tail| - 1] == w + init;
      AssignUntouched(w, init, k);
    }
  }

  /**
   * `reverse_dept_mapping.get(name.strip().lower())`, where a missing key and
   * an empty abbreviation both count as no match.
   */
  function Lookup(rev: map<string, string>, dept: string): Option<string> {
    var n := Lower(Strip(dept));
    if n in rev && rev[n] != "" then Some(rev[n]) else None
  }

  /**
   * Whatever a lookup matches is an abbreviation of some department, reached
   * through that department's full name or through the abbreviation itself.
   */
  lemma MatchedAbbreviation(depts: seq<DeptEntry>, dept: string)
    requires Lookup(ReverseMapping(depts), dept).Some?
    ensures exists i :: 0 <= i < |depts| && Lookup(ReverseMapping(depts), dept).value in depts[i].abbrs &&
                        (Lower(Strip(dept)) == Lower(depts[i].name) ||
                         Lower(Strip(dept)) == Lower(Lookup(ReverseMapping(depts), dept).value))
  {
    var n := Lower(Strip(dept));
    AssignedFrom(RevWrites(depts), n);
    RevWritesOf(depts);
  }

  /** A non-empty name of lower-case ASCII letters only, as every abbreviation is. */
  predicate Plain(a: string) {
    a != [] && forall k :: 0 <= k < |a| ==> 'a' <= a[k] <= 'z'
  }

  /** A plain name has no surrounding whitespace to strip. */
  lemma PlainStripped(a: string)
    requires Plain(a)
    ensures Strip(a) == a
  {
    assert TrimStart(a) == a by {
      assert !IsSpace(a[0]);
    }
    assert TrimEnd(a) == a by {
      assert !IsSpace(a[|a| - 1]);
    }
  }

  /** Stripping and lower-casing a plain name gives it back. */
  lemma PlainNormalized(a: string)
    requires Plain(a)
    ensures Lower(Strip(a)) == a
  {
    PlainStripped(a);
    assert Lower(a) == a;
  }

  /**
   * No department's lower-cased full name equals an abbreviation, except the
   * sole abbreviation of that same department.
   */
  ghost predicate NamesClear(depts: seq<DeptEntry>) {
    forall i, j, a :: 0 <= i < |depts| && 0 <= j < |depts| && a in depts[j].abbrs && Lower(depts[i].name) == a ==>
      depts[i].abbrs == [a]
  }

  /**
   * With plain abbreviations and names that do not clash with them, every
   * abbreviation is mapped to itself, so a report that names departments by
   * abbreviation is resolved to the same abbreviation.
   */
  lemma AbbreviationsResolve(depts: seq<DeptEntry>)
    requires forall i, a :: 0 <= i < |depts| && a in depts[i].abbrs ==> Plain(a)
    requires NamesClear(depts)
    ensures forall i, a :: 0 <= i < |depts| && a in depts[i].abbrs ==> Lookup(ReverseMapping(depts), a) == Some(a)
  {
    forall i, a | 0 <= i < |depts| && a in depts[i].abbrs
      ensures Lookup(ReverseMapping(depts), a) == Some(a)
    {
      AbbreviationResolves(depts, i, a);
    }
  }

  /** `AbbreviationsResolve` for one abbreviation. */
  lemma AbbreviationResolves(depts: seq<DeptEntry>, i: nat, a: string)
    requires forall i, a :: 0 <= i < |depts| && a in depts[i].abbrs ==> Plain(a)
    requires NamesClear(depts)
    requires i < |depts| && a in depts[i].abbrs
    ensures Lookup(ReverseMapping(depts), a) == Some(a)
  {
    PlainNormalized(a);
    forall p | p in RevWrites(depts) && p.0 == a ensures p.1 == a {
      var j, b := WriteOrigin(depts, p);
      WriteOfAbbreviation(depts, i, a, j, b);
    }
    WriteOfOwnAbbreviation(depts, i, a);
    AssignAgree(RevWrites(depts), a, a);
  }

  /** The department and abbreviation an assignment comes from. */
  lemma WriteOrigin(depts: seq<DeptEntry>, p: Write) returns (j: nat, b: string)
    requires p in RevWrites(depts)
    ensures j < |depts| && b in depts[j].abbrs && (p == (Lower(depts[j].name), b) || p == (Lower(b), b))
  {
    RevWritesOf(depts);
    j, b :| 0 <= j < |depts| && b in depts[j].abbrs && (p == (Lower(depts[j].name), b) || p == (Lower(b), b));
  }

  /** Each abbreviation is assigned to its own lower-cased form. */
  lemma WriteOfOwnAbbreviation(depts: seq<DeptEntry>, i: nat, a: string)
    requires i < |depts| && a in depts[i].abbrs
    ensures (Lower(a), a) in RevWrites(depts)
  {
    RevWritesOf(depts);
  }

  /** An assignment to a plain abbreviation's key carries that abbreviation. */
  lemma WriteOfAbbreviation(depts: seq<DeptEntry>, i: nat, a: string, j: nat, b: string)
    requires i < |depts| && a in depts[i].abbrs && j < |depts| && b in depts[j].abbrs && Plain(a) && Plain(b)
    requires NamesClear(depts)
    requires Lower(depts[j].name) == a || Lower(b) == a
    ensures Lower(depts[j].name) == a ==> b == a
    ensures Lower(b) == a ==> b == a
  {
    PlainNormalized(b);
    if Lower(depts[j].name) == a {
      assert depts[j].abbrs == [a];
    }
  }

  /** Splitting the department list splits its assignments. */
  lemma {:induction false} RevWritesConcat(a: seq<DeptEntry>, b: seq<DeptEntry>)
    ensures RevWrites(a + b) == RevWrites(a) + RevWrites(b)
  {
    if b == [] {
      assert a + b == a;
    } else {
      var init := b[..|b| - 1];
      assert (a + b)[..|a + b| - 1] == a + init;
      RevWritesConcat(a, init);
    }
  }

  /**
   * A department's lower-cased full name is mapped to the last abbreviation
   * in its list when no later assignment uses the same key.
   */
  lemma LastNameWins(depts: seq<DeptEntry>, i: nat)
    requires i < |depts| && depts[i].abbrs != []
    requires Lower(depts[i].abbrs[|depts[i].abbrs| - 1]) != Lower(depts[i].name)
    requires forall j :: i < j < |depts| ==> Lower(depts[j].name) != Lower(depts[i].name)
    requires forall j, a :: i < j < |depts| && a in depts[j].abbrs ==> Lower(a) != Lower(depts[i].name)
    ensures Lower(depts[i].name) in ReverseMapping(depts)
    ensures ReverseMapping(depts)[Lower(depts[i].name)] == depts[i].abbrs[|depts[i].abbrs| - 1]
  {
    var e := depts[i];
    var n := Lower(e.name);
    var z := e.abbrs[|e.abbrs| - 1];
    var head := RevWrites(depts[..i]) + EntryWrites(e.name, e.abbrs[..|e.abbrs| - 1]) + [(n, z)];
    var tail := [(Lower(z), z)] + RevWrites(depts[i + 1..]);
    WritesAround(depts, i);
    LaterWritesAvoid(depts, i);
    assert head[..|head| - 1] + [(n, z)] == head;
    AssignUntouched(head, tail, n);
  }

  /** The assignments split around the name assignment of a department's last abbreviation. */
  lemma WritesAround(depts: seq<DeptEntry>, i: nat)
    requires i < |depts| && depts[i].abbrs != []
    ensures var e := depts[i];
      var z := e.abbrs[|e.abbrs| - 1];
      RevWrites(depts) ==
        (RevWrites(depts[..i]) + EntryWrites(e.name, e.abbrs[..|e.abbrs| - 1]) + [(Lower(e.name), z)]) +
        ([(Lower(z), z)] + RevWrites(depts[i + 1..]))
  {
    var e := depts[i];
    var z := e.abbrs[|e.abbrs| - 1];
    RevWritesSplit(depts, i);
    EntryWritesLast(e.name, e.abbrs);
    Regroup(RevWrites(depts[..i]), EntryWrites(e.name, e.abbrs[..|e.abbrs| - 1]), (Lower(e.name), z), (Lower(z), z), RevWrites(depts[i + 1..]));
  }

  /** The last abbreviation's two assignments come last. */
  lemma EntryWritesLast(name: string, abbrs: seq<string>)
    requires abbrs != []
    ensures EntryWrites(name, abbrs) ==
      EntryWrites(name, abbrs[..|abbrs| - 1]) + [(Lower(name), abbrs[|abbrs| - 1]), (Lower(abbrs[|abbrs| - 1]), abbrs[|abbrs| - 1])]
  {
  }

  /** The assignments of the departments before, at and after position `i`. */
  lemma RevWritesSplit(depts: seq<DeptEntry>, i: nat)
    requires i < |depts|
    ensures RevWrites(depts) == RevWrites(depts[..i]) + EntryWrites(depts[i].name, depts[i].abbrs) + RevWrites(depts[i + 1..])
  {
    var upto := depts[..i + 1];
    var rest := depts[i + 1..];
    assert depts == upto + rest;
    RevWritesConcat(upto, rest);
    RevWritesStep(depts, i);
    assert depts[i].abbrs[..|depts[i].abbrs|] == depts[i].abbrs;
  }

  /** Moving the boundary between two pieces of a concatenation. */
  lemma Regroup<T>(w: seq<T>, v: seq<T>, x: T, y: T, r: seq<T>)
    ensures w + v + [x, y] + r == (w + v + [x]) + ([y] + r)
  {
    assert w + v + [x, y] + r == (w + v) + ([x] + ([y] + r));
  }

  /** No assignment of a later department uses a key none of its names and abbreviations lower-case to. */
  lemma LaterWritesAvoid(depts: seq<DeptEntry>, i: nat)
    requires i < |depts|
    requires forall j :: i < j < |depts| ==> Lower(depts[j].name) != Lower(depts[i].name)
    requires forall j, a :: i < j < |depts| && a in depts[j].abbrs ==> Lower(a) != Lower(depts[i].name)
    ensures forall p :: p in RevWrites(depts[i + 1..]) ==> p.0 != Lower(depts[i].name)
  {
    var rest := depts[i + 1..];
    forall p | p in RevWrites(rest) ensures p.0 != Lower(depts[i].name) {
      var j, a := WriteOrigin(rest, p);
      assert rest[j] == depts[i + 1 + j];
    }
  }

  /** Every abbreviation of `DeptAbbr`. */
  const AllAbbrs: seq<string> := ["agri", "cooperation", "eit", "energy", "finance", "food", "forest",
    "handloom", "health", "higheredu", "labour", "missionshakti", "msmy", "odia", "prdw", "revenue",
    "sme", "skill", "ssepd", "scst", "scste", "wcd"]

  /** The length of each full department name of `DeptAbbr`. */
  const NameLengths: seq<int> := [27, 11, 15, 17, 18, 43, 20, 30, 25, 16, 12, 14, 4, 35, 42, 23, 23, 39, 5, 22, 17]

  lemma DeptAbbrLengths()
    ensures |NameLengths| == |DeptAbbr|
    ensures forall i :: 0 <= i < |DeptAbbr| ==> |DeptAbbr[i].name| == NameLengths[i]
    ensures forall j, a :: 0 <= j < |DeptAbbr| && a in DeptAbbr[j].abbrs ==> a in AllAbbrs
    ensures forall a :: a in AllAbbrs ==> |a| != 12 && |a| < 14 && |a| != 10 && 3 <= |a|
  {
    DeptAbbrListed();
    DeptNameLengths();
    AbbrLengths();
  }

  lemma DeptNameLengths()
    ensures |NameLengths| == |DeptAbbr|
    ensures forall i :: 0 <= i < |DeptAbbr| ==> |DeptAbbr[i].name| == NameLengths[i]
  {
  }

  lemma AbbrLengths()
    ensures forall a :: a in AllAbbrs ==> |a| != 12 && |a| < 14 && |a| != 10 && 3 <= |a|
  {
  }

  /** Every abbreviation of `DeptAbbr` is listed in `AllAbbrs`. */
  lemma DeptAbbrListed()
    ensures forall j, a :: 0 <= j < |DeptAbbr| && a in DeptAbbr[j].abbrs ==> a in AllAbbrs
  {
  }

  /** Only three full names have the length of some abbreviation. */
  lemma ShortNames()
    ensures forall i :: 0 <= i < |NameLengths| && NameLengths[i] < 14 && NameLengths[i] != 12 ==>
      i == 1 || i == 12 || i == 18
  {
  }

  /** The three short names against the abbreviations of the same length. */
  lemma ShortNamesApart(a: string)
    requires a in AllAbbrs
    ensures |a| == 11 ==> a == "cooperation"
    ensures |a| == 4 && a[0] == 'm' ==> a == "msmy"
    ensures |a| == 5 && a[1] == 's' ==> a == "ssepd"
  {
  }

  lemma ShortNamesLowered()
    ensures Lower(DeptAbbr[12].name)[0] == 'm' && Lower(DeptAbbr[12].name)[3] == 'e'
    ensures Lower(DeptAbbr[18].name)[1] == 's'
    ensures DeptAbbr[1].abbrs == ["cooperation"] && DeptAbbr[18].abbrs == ["ssepd"]
  {
  }

  /**
   * The facts about `DeptAbbr` that rule out a clash between a lower-cased
   * full name and an abbreviation, stated for any list that has them.
   */
  lemma {:induction false} NamesClearByLength(depts: seq<DeptEntry>)
    requires |depts| == |NameLengths|
    requires forall i :: 0 <= i < |depts| ==> |depts[i].name| == NameLengths[i]
    requires forall j, a :: 0 <= j < |depts| && a in depts[j].abbrs ==> a in AllAbbrs
    requires Lower(depts[12].name)[0] == 'm' && Lower(depts[12].name)[3] == 'e'
    requires Lower(depts[18].name)[1] == 's'
    requires depts[1].abbrs == ["cooperation"] && depts[18].abbrs == ["ssepd"]
    ensures NamesClear(depts)
  {
    assert |depts[1].name| == 11 && |depts[12].name| == 4 && |depts[18].name| == 5;
    forall i, j, a | 0 <= i < |depts| && 0 <= j < |depts| && a in depts[j].abbrs && Lower(depts[i].name) == a
      ensures depts[i].abbrs == [a]
    {
      ClashLength(depts, i, a);
      ClashIndex(i, a);
      ClearAt(depts, i, a);
    }
  }

  /** A clash between a full name and an abbreviation needs equal lengths. */
  lemma ClashLength(depts: seq<DeptEntry>, i: nat, a: string)
    requires |depts| == |NameLengths|
    requires forall i :: 0 <= i < |depts| ==> |depts[i].name| == NameLengths[i]
    requires i < |depts| && Lower(depts[i].name) == a
    ensures |a| == NameLengths[i]
  {
  }

  /** Only the three short names are as long as some abbreviation. */
  lemma ClashIndex(i: nat, a: string)
    requires i < |NameLengths| && a in AllAbbrs && |a| == NameLengths[i]
    ensures i == 1 || i == 12 || i == 18
  {
    DeptAbbrLengths();
    ShortNames();
  }

  lemma ClearAt(depts: seq<DeptEntry>, i: nat, a: string)
    requires 19 <= |depts|
    requires |depts[1].name| == 11 && |depts[12].name| == 4 && |depts[18].name| == 5
    requires Lower(depts[12].name)[0] == 'm' && Lower(depts[12].name)[3] == 'e'
    requires Lower(depts[18].name)[1] == 's'
    requires depts[1].abbrs == ["cooperation"] && depts[18].abbrs == ["ssepd"]
    requires (i == 1 || i == 12 || i == 18) && a in AllAbbrs && Lower(depts[i].name) == a
    ensures depts[i].abbrs == [a]
  {
    ShortNamesApart(a);
    if i == 12 {
      assert false;
    }
  }

  lemma DeptAbbrNamesClear()
    ensures NamesClear(DeptAbbr)
  {
    DeptAbbrLengths();
    ShortNamesLowered();
    NamesClearByLength(DeptAbbr);
  }

  lemma DeptAbbrPlain()
    ensures forall i, a :: 0 <= i < |DeptAbbr| && a in DeptAbbr[i].abbrs ==> Plain(a)
  {
    DeptAbbrListed();
    AllAbbrsPlain(0, 11);
    AllAbbrsPlain(11, |AllAbbrs|);
    forall a | a in AllAbbrs ensures Plain(a) {
      var k :| 0 <= k < |AllAbbrs| && AllAbbrs[k] == a;
    }
  }

  /** The abbreviations listed from position `lo` to `hi` are plain. */
  lemma AllAbbrsPlain(lo: nat, hi: nat)
    requires lo <= hi <= |AllAbbrs| && hi - lo <= 11
    ensures forall k :: lo <= k < hi ==> Plain(AllAbbrs[k])
  {
  }

  /** Under `DeptAbbr`, every abbreviation is looked up as itself. */
  lemma DeptAbbrResolves()
    ensures forall i, a :: 0 <= i < |DeptAbbr| && a in DeptAbbr[i].abbrs ==> Lookup(ReverseMapping(DeptAbbr), a) == Some(a)
  {
    DeptAbbrPlain();
    DeptAbbrNamesClear();
    AbbreviationsResolve(DeptAbbr);
  }

  /**
   * The full name of the ST & SC department is looked up as its last
   * abbreviation, "scste", not as "scst", the prefix its split table uses.
   */
  lemma ScStNameResolvesToLast()
    ensures Lookup(ReverseMapping(DeptAbbr), ScStDepartment) == Some("scste")
  {
    ScStNameLast();
    ScStNameStripped();
  }

  /** `LastNameWins`, with the keys told apart by their lengths. */
  lemma LastNameWinsByLength(depts: seq<DeptEntry>, i: nat)
    requires i < |depts| && depts[i].abbrs != []
    requires |depts[i].abbrs[|depts[i].abbrs| - 1]| != |depts[i].name|
    requires forall j :: i < j < |depts| ==> |depts[j].name| != |depts[i].name|
    requires forall j, a :: i < j < |depts| && a in depts[j].abbrs ==> |a| != |depts[i].name|
    ensures Lower(depts[i].name) in ReverseMapping(depts)
    ensures ReverseMapping(depts)[Lower(depts[i].name)] == depts[i].abbrs[|depts[i].abbrs| - 1]
  {
    LastNameWins(depts, i);
  }

  /** No assignment after "scste" uses the key of the lower-cased ST & SC name. */
  lemma ScStNameLast()
    ensures Lower(ScStDepartment) in ReverseMapping(DeptAbbr)
    ensures ReverseMapping(DeptAbbr)[Lower(ScStDepartment)] == "scste"
  {
    assert DeptAbbr[19].name == ScStDepartment && DeptAbbr[19].abbrs == ["scst", "scste"];
    assert |DeptAbbr| == 21 && |DeptAbbr[19].name| == 22 && |DeptAbbr[20].name| == 17;
    assert DeptAbbr[20].abbrs == ["wcd"];
    LastNameWinsByLength(DeptAbbr, 19);
  }

  lemma ScStNameStripped()
    ensures Strip(ScStDepartment) == ScStDepartment
  {
    assert TrimStart(ScStDepartment) == ScStDepartment;
    assert TrimEnd(ScStDepartment) == ScStDepartment;
  }
}
