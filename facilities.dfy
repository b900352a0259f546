/** The healthcare-facility cleaner that writes `data/filtered_healthcare.csv`: facility
    names are re-capitalised word by word, then the coordinate filters are applied.
    Characters are treated as ASCII: case mapping touches only 'a'..'z' and 'A'..'Z'. */
module Facilities {
  import opened Cells
  import opened Frames

  // ----- Word-by-word capitalisation -----

  /** The ASCII characters `str.split()` splits on: tab, line feed, vertical tab, form feed,
      carriage return, the four separators 0x1C..0x1F, and space. */
  predicate IsSpace(c: char)
  {
    (9 <= c as int <= 13) || (28 <= c as int <= 32)
  }

  function Upper(c: char): (u: char)
    ensures IsSpace(u) <==> IsSpace(c)
  {
    if 'a' <= c <= 'z' then (c as int - 32) as char else c
  }

  function Lower(c: char): (l: char)
    ensures IsSpace(l) <==> IsSpace(c)
  {
    if 'A' <= c <= 'Z' then (c as int + 32) as char else c
  }

  function LowerAll(s: string): (r: string)
    ensures |r| == |s|
    ensures forall i :: 0 <= i < |s| ==> r[i] == Lower(s[i])
  {
    if s == [] then [] else [Lower(s[0])] + LowerAll(s[1..])
  }

  /** `str.capitalize` on one word: first character upper case, the rest lower case. */
  function Capitalize(w: string): (r: string)
    ensures |r| == |w|
    ensures |w| > 0 ==> r[0] == Upper(w[0])
    ensures forall i :: 1 <= i < |w| ==> r[i] == Lower(w[i])
  {
    if w == [] then [] else [Upper(w[0])] + LowerAll(w[1..])
  }

  /** A word as `str.split()` yields it: non-empty, with no whitespace inside. */
  predicate IsWord(w: string)
  {
    |w| > 0 && forall i :: 0 <= i < |w| ==> !IsSpace(w[i])
  }

  predicate AllWords(ws: seq<string>)
  {
    forall i :: 0 <= i < |ws| ==> IsWord(ws[i])
  }

  /** `str.split()` with no separator, continuing a word `current` already begun. */
  function SplitFrom(s: string, current: string): (ws: seq<string>)
    requires forall i :: 0 <= i < |current| ==> !IsSpace(current[i])
    ensures AllWords(ws)
  {
    if s == [] then (if current == [] then [] else [current])
    else if IsSpace(s[0]) then
      (if current == [] then SplitFrom(s[1..], []) else [current] + SplitFrom(s[1..], []))
    else SplitFrom(s[1..], current + [s[0]])
  }

  /** `s.split()`: the maximal runs of non-whitespace characters, in order. */
  function Words(s: string): seq<string>
  {
    SplitFrom(s, [])
  }

  /** `' '.join(ws)`. */
  function Join(ws: seq<string>): string
  {
    if ws == [] then "" else if |ws| == 1 then ws[0] else ws[0] + " " + Join(ws[1..])
  }

  function CapitalizeAll(ws: seq<string>): (r: seq<string>)
    ensures |r| == |ws|
    ensures forall i :: 0 <= i < |ws| ==> r[i] == Capitalize(ws[i])
  {
    if ws == [] then [] else [Capitalize(ws[0])] + CapitalizeAll(ws[1..])
  }

  /** The lambda applied to `facility_name`: split, capitalise every word, join with spaces. */
  function CapitalizeName(name: string): string
  {
    Join(CapitalizeAll(Words(name)))
  }

  /** Text made only of words separated by single spaces: no leading, trailing or doubled
      space, and no other whitespace. */
  predicate SingleSpaced(s: string)
  {
    && (forall i :: 0 <= i < |s| ==> IsSpace(s[i]) ==> s[i] == ' ')
    && (|s| > 0 ==> s[0] != ' ' && s[|s| - 1] != ' ')
    && (forall i :: 0 <= i < |s| - 1 ==> !(s[i] == ' ' && s[i + 1] == ' '))
  }

  lemma {:induction false} CapitalizeKeepsWord(w: string)
    requires IsWord(w)
    ensures IsWord(Capitalize(w))
  {
    var r := Capitalize(w);
    forall i | 0 <= i < |r| ensures !IsSpace(r[i]) {
      assert !IsSpace(w[i]);
    }
  }

  lemma {:induction false} CapitalizeIdempotent(w: string)
    ensures Capitalize(Capitalize(w)) == Capitalize(w)
  {
    var r := Capitalize(w);
    var rr := Capitalize(r);
    forall i | 0 <= i < |w| ensures rr[i] == r[i] {
      if i == 0 {
        assert rr[0] == Upper(Upper(w[0]));
      } else {
        assert rr[i] == Lower(Lower(w[i]));
      }
    }
  }

  /** Scanning a word made of non-space characters extends the current word by it. */
  lemma {:induction false} SplitFromWord(w: string, rest: string, current: string)
    requires forall i :: 0 <= i < |current| ==> !IsSpace(current[i])
    requires forall i :: 0 <= i < |w| ==> !IsSpace(w[i])
    ensures SplitFrom(w + rest, current) == SplitFrom(rest, current + w)
    decreases |w|
  {
    if w != [] {
      assert (w + rest)[1..] == w[1..] + rest;
      assert current + [w[0]] + w[1..] == current + w;
      SplitFromWord(w[1..], rest, current + [w[0]]);
    } else {
      assert w + rest == rest;
      assert current + w == current;
    }
  }

  /** Splitting a space-joined list of words gives the words back. */
  lemma {:induction false} WordsOfJoin(ws: seq<string>)
    requires AllWords(ws)
    ensures Words(Join(ws)) == ws
  {
    if ws == [] {
    } else if |ws| == 1 {
      SplitFromWord(ws[0], "", []);
      assert ws[0] + "" == ws[0];
      assert [] + ws[0] == ws[0];
    } else {
      var rest := Join(ws[1..]);
      SplitFromWord(ws[0], " " + rest, []);
      assert [] + ws[0] == ws[0];
      assert ws[0] + " " + rest == ws[0] + (" " + rest);
      assert (" " + rest)[1..] == rest;
      WordsOfJoin(ws[1..]);
    }
  }

  /** Joining non-empty, whitespace-free words gives single-spaced text. */
  lemma {:induction false} JoinSingleSpaced(ws: seq<string>)
    requires AllWords(ws)
    ensures SingleSpaced(Join(ws))
    ensures |ws| > 0 ==> |Join(ws)| > 0 && !IsSpace(Join(ws)[0]) && !IsSpace(Join(ws)[|Join(ws)| - 1])
  {
    if |ws| > 1 {
      JoinSingleSpaced(ws[1..]);
      var w, rest := ws[0], Join(ws[1..]);
      var s := w + " " + rest;
      assert IsWord(w);
      forall i | 0 <= i < |s| - 1 ensures !(s[i] == ' ' && s[i + 1] == ' ') {
        if i < |w| - 1 {
          assert s[i] == w[i];
        } else if i == |w| - 1 {
          assert s[i] == w[i];
        } else if i == |w| {
          assert s[i + 1] == rest[0];
        } else {
          assert s[i] == rest[i - |w| - 1] && s[i + 1] == rest[i - |w|];
        }
      }
      forall i | 0 <= i < |s| ensures IsSpace(s[i]) ==> s[i] == ' ' {
        if i < |w| {
          assert s[i] == w[i];
        } else if i > |w| {
          assert s[i] == rest[i - |w| - 1];
        }
      }
      assert s[|s| - 1] == rest[|rest| - 1];
    } else if |ws| == 1 {
      assert IsWord(ws[0]);
    }
  }

  // ----- An independent reading of `str.split()`: collapse whitespace, then trim -----

  /** Every run of whitespace replaced by a single space; other characters are kept. */
  function Squeeze(s: string): string
  {
    if s == [] then []
    else if !IsSpace(s[0]) then [s[0]] + Squeeze(s[1..])
    else if |s| > 1 && IsSpace(s[1]) then Squeeze(s[1..])
    else " " + Squeeze(s[1..])
  }

  /** One leading space removed, if there is one. */
  function TrimStart(t: string): string
  {
    if |t| > 0 && t[0] == ' ' then t[1..] else t
  }

  /** One trailing space removed, if there is one. */
  function TrimEnd(t: string): string
  {
    if |t| > 0 && t[|t| - 1] == ' ' then t[..|t| - 1] else t
  }

  /** `s` with its whitespace runs collapsed to single spaces and its ends trimmed. */
  function Collapse(s: string): string
  {
    TrimEnd(TrimStart(Squeeze(s)))
  }

  lemma {:induction false} SqueezeEmpty(s: string)
    ensures Squeeze(s) == [] <==> s == []
  {
    if s != [] && IsSpace(s[0]) && |s| > 1 && IsSpace(s[1]) {
      SqueezeEmpty(s[1..]);
    }
  }

  lemma {:induction false} SplitFromStarted(s: string, current: string)
    requires current != []
    requires forall i :: 0 <= i < |current| ==> !IsSpace(current[i])
    ensures SplitFrom(s, current) != []
    decreases |s|
  {
    if s != [] && !IsSpace(s[0]) {
      SplitFromStarted(s[1..], current + [s[0]]);
    }
  }

  lemma TrimEndAppend(a: string, b: string)
    requires |b| > 0
    ensures TrimEnd(a + b) == a + TrimEnd(b)
  {
    if b[|b| - 1] == ' ' {
      assert (a + b)[..|a + b| - 1] == a + b[..|b| - 1];
    }
  }

  /** Splitting from a begun word and re-joining gives the collapsed, trimmed text. */
  lemma {:induction false} JoinSplitFrom(s: string, current: string)
    requires forall i :: 0 <= i < |current| ==> !IsSpace(current[i])
    ensures Join(SplitFrom(s, current)) == TrimEnd(TrimStart(current + Squeeze(s)))
    decreases |s|
  {
    if s == [] {
      JoinSplitEnd(current);
    } else if !IsSpace(s[0]) {
      ExtendWord(current, s[0]);
      JoinSplitFrom(s[1..], current + [s[0]]);
      JoinWordChar(s, current);
    } else if |s| > 1 && IsSpace(s[1]) {
      JoinSplitFrom(s[1..], current);
      SplitFromSpaces(s, current);
    } else {
      JoinSplitFrom(s[1..], []);
      JoinAfterSpace(s, current);
    }
  }

  /** At the end of the text the join is the begun word, if any. */
  lemma JoinSplitEnd(current: string)
    requires forall i :: 0 <= i < |current| ==> !IsSpace(current[i])
    ensures Join(SplitFrom([], current)) == TrimEnd(TrimStart(current + Squeeze([])))
  {
    assert current + Squeeze([]) == current;
    if current != [] {
      assert !IsSpace(current[0]) && !IsSpace(current[|current| - 1]);
    }
  }

  /** A begun word extended by a non-whitespace character is still free of whitespace. */
  lemma ExtendWord(current: string, c: char)
    requires forall i :: 0 <= i < |current| ==> !IsSpace(current[i])
    requires !IsSpace(c)
    ensures forall i :: 0 <= i < |current + [c]| ==> !IsSpace((current + [c])[i])
  {
    var longer := current + [c];
    assert forall i :: 0 <= i < |current| ==> longer[i] == current[i];
  }

  /** The step of `JoinSplitFrom` at a non-whitespace character: it joins the begun word. */
  lemma JoinWordChar(s: string, current: string)
    requires forall i :: 0 <= i < |current| ==> !IsSpace(current[i])
    requires |s| > 0 && !IsSpace(s[0])
    requires IsWord(current + [s[0]])
    requires Join(SplitFrom(s[1..], current + [s[0]])) ==
      TrimEnd(TrimStart(current + [s[0]] + Squeeze(s[1..])))
    ensures Join(SplitFrom(s, current)) == TrimEnd(TrimStart(current + Squeeze(s)))
  {
    var longer, q := current + [s[0]], Squeeze(s[1..]);
    assert Squeeze(s) == [s[0]] + q;
    ConcatAssoc(current, [s[0]], q);
    assert SplitFrom(s, current) == SplitFrom(s[1..], longer);
  }

  lemma ConcatAssoc(a: string, b: string, c: string)
    ensures a + (b + c) == a + b + c
  {
  }

  /** The first of two whitespace characters changes nothing in the split. */
  lemma SplitFromSpaces(s: string, current: string)
    requires forall i :: 0 <= i < |current| ==> !IsSpace(current[i])
    requires |s| > 1 && IsSpace(s[0]) && IsSpace(s[1])
    ensures SplitFrom(s, current) == SplitFrom(s[1..], current)
    ensures Squeeze(s) == Squeeze(s[1..])
  {
    assert s[1..][1..] == s[2..];
    assert SplitFrom(s[1..], []) == SplitFrom(s[2..], []);
  }

  /** The squeezed text after a lone space, or the last space of a run, starts with no space. */
  lemma SqueezeAfterSpace(s: string)
    requires |s| > 0 && IsSpace(s[0]) && (|s| == 1 || !IsSpace(s[1]))
    ensures TrimStart(Squeeze(s[1..])) == Squeeze(s[1..])
    ensures TrimStart(" " + Squeeze(s[1..])) == Squeeze(s[1..])
  {
    var q := Squeeze(s[1..]);
    assert q == [] || q[0] != ' ' by {
      if |s| > 1 {
        assert q == [s[1]] + Squeeze(s[2..]);
      }
    }
    assert (" " + q)[1..] == q;
  }

  /** The step of `JoinSplitFrom` at a single whitespace character, or the last of a run. */
  lemma JoinAfterSpace(s: string, current: string)
    requires forall i :: 0 <= i < |current| ==> !IsSpace(current[i])
    requires |s| > 0 && IsSpace(s[0]) && (|s| == 1 || !IsSpace(s[1]))
    requires Join(SplitFrom(s[1..], [])) == TrimEnd(TrimStart([] + Squeeze(s[1..])))
    ensures Join(SplitFrom(s, current)) == TrimEnd(TrimStart(current + Squeeze(s)))
  {
    SqueezeAfterSpace(s);
    assert [] + Squeeze(s[1..]) == Squeeze(s[1..]);
    if current == [] {
      JoinSpaceUnstarted(s);
    } else if |s| == 1 {
      JoinFinalSpace(s, current);
    } else {
      JoinSpaceThenWord(s, current);
    }
  }

  /** Before any word, a space adds nothing to the join. */
  lemma JoinSpaceUnstarted(s: string)
    requires |s| > 0 && IsSpace(s[0]) && (|s| == 1 || !IsSpace(s[1]))
    requires Join(SplitFrom(s[1..], [])) == TrimEnd(Squeeze(s[1..]))
    ensures Join(SplitFrom(s, [])) == TrimEnd(TrimStart([] + Squeeze(s)))
  {
    SqueezeAfterSpace(s);
    assert [] + Squeeze(s) == " " + Squeeze(s[1..]);
  }

  /** A begun word ended by a final space: the join is the word, the space trimmed. */
  lemma JoinFinalSpace(s: string, current: string)
    requires forall i :: 0 <= i < |current| ==> !IsSpace(current[i])
    requires current != [] && |s| == 1 && IsSpace(s[0])
    ensures Join(SplitFrom(s, current)) == TrimEnd(TrimStart(current + Squeeze(s)))
  {
    assert !IsSpace(current[0]);
    assert current + Squeeze(s) == current + " ";
    assert (current + " ")[0] == current[0];
    assert (current + " ")[..|current|] == current;
  }

  /** A begun word, one space, then a word: the join puts a single space between them. */
  lemma JoinSpaceThenWord(s: string, current: string)
    requires forall i :: 0 <= i < |current| ==> !IsSpace(current[i])
    requires current != []
    requires |s| > 1 && IsSpace(s[0]) && !IsSpace(s[1])
    requires Join(SplitFrom(s[1..], [])) == TrimEnd(Squeeze(s[1..]))
    ensures Join(SplitFrom(s, current)) == TrimEnd(TrimStart(current + Squeeze(s)))
  {
    var q := Squeeze(s[1..]);
    JoinWordThenRest(s, current);
    SqueezeWordThenRest(s, current);
    TrimEndAppend(current + " ", q);
  }

  lemma JoinWordThenRest(s: string, current: string)
    requires forall i :: 0 <= i < |current| ==> !IsSpace(current[i])
    requires current != []
    requires |s| > 1 && IsSpace(s[0]) && !IsSpace(s[1])
    ensures Join(SplitFrom(s, current)) == current + " " + Join(SplitFrom(s[1..], []))
  {
    var ws := SplitFrom(s[1..], []);
    assert ws != [] by {
      assert s[1..][1..] == s[2..] && [] + [s[1]] == [s[1]];
      assert ws == SplitFrom(s[2..], [s[1]]);
      SplitFromStarted(s[2..], [s[1]]);
    }
    assert SplitFrom(s, current) == [current] + ws;
    assert ([current] + ws)[1..] == ws;
  }

  lemma SqueezeWordThenRest(s: string, current: string)
    requires current != [] && !IsSpace(current[0])
    requires |s| > 1 && IsSpace(s[0]) && !IsSpace(s[1])
    ensures Squeeze(s[1..]) != []
    ensures TrimStart(current + Squeeze(s)) == (current + " ") + Squeeze(s[1..])
  {
    var q := Squeeze(s[1..]);
    SqueezeEmpty(s[1..]);
    assert current + Squeeze(s) == (current + " ") + q;
    assert ((current + " ") + q)[0] == current[0];
  }

  /** `str.split()` agrees with the independent reading: its words, joined by single spaces,
      are the text with whitespace runs collapsed and the ends trimmed. */
  lemma JoinWords(s: string)
    ensures Join(Words(s)) == Collapse(s)
  {
    JoinSplitFrom(s, []);
    assert [] + Squeeze(s) == Squeeze(s);
  }

  /** The words of a text are the only word list whose single-spaced join is the collapsed
      text: no other split is consistent with it. */
  lemma WordsDetermined(s: string, ws: seq<string>)
    requires AllWords(ws) && Join(ws) == Collapse(s)
    ensures ws == Words(s)
  {
    JoinWords(s);
    WordsOfJoin(ws);
    WordsOfJoin(Words(s));
  }

  /** Leading, trailing and repeated whitespace yield no empty words. */
  lemma ExampleSplit()
    ensures Words(" ab\t\tc ") == ["ab", "c"]
  {
    var ws := ["ab", "c"];
    assert AllWords(ws);
    assert Join(ws) == "ab c";
    assert Squeeze(" ab\t\tc ") == " ab c ";
    WordsDetermined(" ab\t\tc ", ws);
  }

  /** The capitalised name is made of the input's words, each capitalised, in order. */
  lemma CapitalizeNameWords(name: string)
    ensures Words(CapitalizeName(name)) == CapitalizeAll(Words(name))
    ensures |Words(CapitalizeName(name))| == |Words(name)|
  {
    var ws := CapitalizeAll(Words(name));
    forall i | 0 <= i < |ws| ensures IsWord(ws[i]) {
      CapitalizeKeepsWord(Words(name)[i]);
    }
    WordsOfJoin(ws);
  }

  /** The capitalised name has no leading, trailing or doubled space. */
  lemma CapitalizeNameSingleSpaced(name: string)
    ensures SingleSpaced(CapitalizeName(name))
  {
    var ws := CapitalizeAll(Words(name));
    forall i | 0 <= i < |ws| ensures IsWord(ws[i]) {
      CapitalizeKeepsWord(Words(name)[i]);
    }
    JoinSingleSpaced(ws);
  }

  /** Capitalising an already capitalised name changes nothing. */
  lemma CapitalizeNameIdempotent(name: string)
    ensures CapitalizeName(CapitalizeName(name)) == CapitalizeName(name)
  {
    var ws := CapitalizeAll(Words(name));
    CapitalizeNameWords(name);
    var twice := CapitalizeAll(ws);
    forall i | 0 <= i < |ws| ensures twice[i] == ws[i] {
      CapitalizeIdempotent(Words(name)[i]);
    }
    assert twice == ws;
  }

  // ----- The facility table -----

  /** One row of the facility file restricted to the four selected columns, the
      coordinates still raw text. A missing facility type is `None`. */
  datatype FacilityRecord = FacilityRecord(
    facilityName: string, facilityType: Option<string>, latitude: string, longitude: string)

  /** One output row: facility_name, odhf_facility_type, latitude, longitude. */
  datatype Facility = Facility(
    facilityName: string, facilityType: Option<string>, latitude: real, longitude: real)

  /** First coordinate mask over a facility row. */
  predicate NumericCoordinates(r: FacilityRecord)
  {
    NumericPair(r.latitude, r.longitude)
  }

  /** Second coordinate mask over a facility row. */
  predicate NonZeroCoordinates(r: FacilityRecord)
  {
    NonZeroPair(r.latitude, r.longitude)
  }

  predicate Located(r: FacilityRecord)
  {
    NumericCoordinates(r) && NonZeroCoordinates(r)
  }

  /** The name column after the capitalising assignment. */
  function WithCapitalizedName(r: FacilityRecord): (out: FacilityRecord)
    ensures out.facilityType == r.facilityType
    ensures out.latitude == r.latitude && out.longitude == r.longitude
    ensures out.facilityName == CapitalizeName(r.facilityName)
  {
    r.(facilityName := CapitalizeName(r.facilityName))
  }

  function CapitalizeNames(rows: seq<FacilityRecord>): (out: seq<FacilityRecord>)
    ensures |out| == |rows|
    ensures forall i :: 0 <= i < |rows| ==> out[i] == WithCapitalizedName(rows[i])
  {
    if rows == [] then [] else [WithCapitalizedName(rows[0])] + CapitalizeNames(rows[1..])
  }

  function AsFacility(r: FacilityRecord): Facility
    requires Located(r)
  {
    Facility(r.facilityName, r.facilityType, ToNumeric(r.latitude).value, ToNumeric(r.longitude).value)
  }

  function AsFacilities(rows: seq<FacilityRecord>): (out: seq<Facility>)
    requires forall r :: r in rows ==> Located(r)
    ensures |out| == |rows|
    ensures forall i :: 0 <= i < |rows| ==> out[i] == AsFacility(rows[i])
  {
    if rows == [] then [] else [AsFacility(rows[0])] + AsFacilities(rows[1..])
  }

  /** The whole script on a table: capitalise names, then the two coordinate masks. */
  function FilteredHealthcare(table: seq<FacilityRecord>): seq<Facility>
  {
    var named := CapitalizeNames(table);
    AsFacilities(Filter(Filter(named, NumericCoordinates), NonZeroCoordinates))
  }

  /** A row is written exactly when its coordinates are numbers and neither is 0. Rows keep
      their input order, their type and their coordinates, and their name is capitalised. */
  lemma FilteredHealthcareRows(table: seq<FacilityRecord>)
    ensures Subseq(Filter(table, Located), table)
    ensures var kept := Filter(table, Located);
      |FilteredHealthcare(table)| == |kept| &&
      forall i :: 0 <= i < |kept| ==>
        var r := kept[i];
        Located(r) && FilteredHealthcare(table)[i] ==
          Facility(CapitalizeName(r.facilityName), r.facilityType, ToNumeric(r.latitude).value, ToNumeric(r.longitude).value)
  {
    FilterIsSubseq(table, Located);
    var named := CapitalizeNames(table);
    var kept := Filter(table, Located);
    FilterTwice(named, NumericCoordinates, NonZeroCoordinates, Located);
    CapitalizeCommutesWithFilter(table);
    var renamed := CapitalizeNames(kept);
    assert Filter(Filter(named, NumericCoordinates), NonZeroCoordinates) == renamed;
    assert FilteredHealthcare(table) == AsFacilities(renamed);
    forall i | 0 <= i < |kept|
      ensures Located(kept[i])
      ensures AsFacilities(renamed)[i] == AsFacility(WithCapitalizedName(kept[i]))
    {
      assert kept[i] in kept;
      assert renamed[i] == WithCapitalizedName(kept[i]);
    }
  }

  lemma {:induction false} CapitalizeCommutesWithFilter(table: seq<FacilityRecord>)
    ensures Filter(CapitalizeNames(table), Located) == CapitalizeNames(Filter(table, Located))
  {
    if table != [] {
      var t, rest := table[0], table[1..];
      CapitalizeCommutesWithFilter(rest);
      var named := CapitalizeNames(table);
      assert named == [WithCapitalizedName(t)] + CapitalizeNames(rest);
      assert named[0] == WithCapitalizedName(t) && named[1..] == CapitalizeNames(rest);
      assert Located(WithCapitalizedName(t)) == Located(t);
      if Located(t) {
        var kept := [t] + Filter(rest, Located);
        assert CapitalizeNames(kept) == [WithCapitalizedName(t)] + CapitalizeNames(Filter(rest, Located)) by {
          assert kept[0] == t && kept[1..] == Filter(rest, Located);
        }
      }
    }
  }
}
