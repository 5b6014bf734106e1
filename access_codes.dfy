/**
 * The access-code page of config.js: a list of (name, code) rows shown on the
 * page, and the `pageCodes` object kept in `localStorage`. Saving turns the
 * rows into an object, deleting removes one row unless it is the `"Chef"` row,
 * and loading shows one row per stored entry followed by one empty row.
 */
module AccessCodes {

  import opened Wrappers
  import opened JsObject

  /** A row of the page: the values of its `name` and `code` inputs. */
  type Entry = (string, string)

  /** The row `addEmptyEntry` appends: both inputs empty. */
  const EmptyRow: Entry := ("", "")

  /** The characters `String.prototype.trim` removes: ECMAScript WhiteSpace and LineTerminator. */
  const JsSpaces: set<char> := {'\t', '\n', '\U{000B}', '\U{000C}', '\r', ' ', '\U{00A0}', '\U{1680}',
    '\U{2000}', '\U{2001}', '\U{2002}', '\U{2003}', '\U{2004}', '\U{2005}', '\U{2006}', '\U{2007}', '\U{2008}',
    '\U{2009}', '\U{200A}', '\U{2028}', '\U{2029}', '\U{202F}', '\U{205F}', '\U{3000}', '\U{FEFF}'}

  predicate IsJsSpace(c: char) {
    c in JsSpaces
  }

  /** Whether `s` neither starts nor ends with white space. */
  predicate Trimmed(s: string) {
    s == [] || (!IsJsSpace(s[0]) && !IsJsSpace(s[|s| - 1]))
  }

  /** `s` without its leading white space. */
  function TrimStart(s: string): string {
    if s != [] && IsJsSpace(s[0]) then TrimStart(s[1..]) else s
  }

  /** `s` without its trailing white space. */
  function TrimEnd(s: string): string {
    if s != [] && IsJsSpace(s[|s| - 1]) then TrimEnd(s[..|s| - 1]) else s
  }

  /** `s.trim()`. */
  function Trim(s: string): string {
    TrimEnd(TrimStart(s))
  }

  /** Trimming the start drops exactly the leading white space. */
  lemma {:induction false} TrimStartSpec(s: string)
    ensures |TrimStart(s)| <= |s| && TrimStart(s) == s[|s| - |TrimStart(s)|..]
    ensures forall i :: 0 <= i < |s| - |TrimStart(s)| ==> IsJsSpace(s[i])
    ensures TrimStart(s) == [] || !IsJsSpace(TrimStart(s)[0])
  {
    if s != [] && IsJsSpace(s[0]) {
      var rest := s[1..];
      var t := TrimStart(rest);
      TrimStartSpec(rest);
      assert TrimStart(s) == t;
      assert rest[|rest| - |t|..] == s[|s| - |t|..];
      forall i | 0 < i < |s| - |t| ensures IsJsSpace(s[i]) {
        assert s[i] == rest[i - 1];
      }
    }
  }

  /** Trimming the end drops exactly the trailing white space. */
  lemma {:induction false} TrimEndSpec(s: string)
    ensures |TrimEnd(s)| <= |s| && TrimEnd(s) == s[..|TrimEnd(s)|]
    ensures forall i :: |TrimEnd(s)| <= i < |s| ==> IsJsSpace(s[i])
    ensures TrimEnd(s) == [] || !IsJsSpace(TrimEnd(s)[|TrimEnd(s)| - 1])
  {
    if s != [] && IsJsSpace(s[|s| - 1]) {
      var init := s[..|s| - 1];
      var t := TrimEnd(init);
      TrimEndSpec(init);
      assert TrimEnd(s) == t;
      assert init[..|t|] == s[..|t|];
      forall i | |t| <= i < |s| - 1 ensures IsJsSpace(s[i]) {
        assert s[i] == init[i];
      }
    }
  }

  /** `s.trim()` has no white space at either end. */
  lemma TrimEnds(s: string)
    ensures Trimmed(Trim(s))
  {
    var t := TrimStart(s);
    TrimStartSpec(s);
    TrimEndSpec(t);
    var r := TrimEnd(t);
    if r != [] {
      assert r[0] == t[0];
    }
  }

  /** `s.trim()` is the run of `s` that starts where `TrimStart` starts. */
  lemma TrimSlice(s: string)
    ensures |Trim(s)| <= |TrimStart(s)| <= |s|
    ensures Trim(s) == s[|s| - |TrimStart(s)|..|s| - |TrimStart(s)| + |Trim(s)|]
  {
    var t := TrimStart(s);
    TrimStartSpec(s);
    TrimEndSpec(t);
    var a := |s| - |t|;
    var r := TrimEnd(t);
    assert t == s[a..] && r == t[..|r|];
  }

  /** What `s.trim()` leaves off after it is white space. */
  lemma TrimTail(s: string)
    ensures |Trim(s)| <= |TrimStart(s)| <= |s|
    ensures forall i :: |s| - |TrimStart(s)| + |Trim(s)| <= i < |s| ==> IsJsSpace(s[i])
  {
    var t := TrimStart(s);
    TrimStartSpec(s);
    TrimEndSpec(t);
    var a := |s| - |t|;
    var r := TrimEnd(t);
    forall i | a + |r| <= i < |s| ensures IsJsSpace(s[i]) {
      assert s[i] == t[i - a];
    }
  }

  /** `s.trim()` is `s` with its leading and trailing white space cut off. */
  lemma TrimCuts(s: string)
    ensures |Trim(s)| <= |TrimStart(s)| <= |s|
    ensures Trim(s) == s[|s| - |TrimStart(s)|..|s| - |TrimStart(s)| + |Trim(s)|]
    ensures forall i :: 0 <= i < |s| - |TrimStart(s)| ==> IsJsSpace(s[i])
    ensures forall i :: |s| - |TrimStart(s)| + |Trim(s)| <= i < |s| ==> IsJsSpace(s[i])
  {
    TrimStartSpec(s);
    TrimSlice(s);
    TrimTail(s);
  }

  /**
   * `s.trim()` is the part of `s` that starts after its leading white space
   * and ends before its trailing white space, and has no white space at
   * either end.
   */
  lemma TrimSpec(s: string)
    ensures Trimmed(Trim(s))
    ensures |Trim(s)| <= |TrimStart(s)| <= |s|
    ensures Trim(s) == s[|s| - |TrimStart(s)|..|s| - |TrimStart(s)| + |Trim(s)|]
    ensures forall i :: 0 <= i < |s| - |TrimStart(s)| ==> IsJsSpace(s[i])
    ensures forall i :: |s| - |TrimStart(s)| + |Trim(s)| <= i < |s| ==> IsJsSpace(s[i])
  {
    TrimEnds(s);
    TrimCuts(s);
  }

  /** Trimming a string that has no white space at either end changes nothing. */
  lemma TrimTrimmed(s: string)
    requires Trimmed(s)
    ensures Trim(s) == s
  {
    TrimStartSpec(s);
    if s != [] {
      assert !IsJsSpace(s[0]);
    }
    assert TrimStart(s) == s;
    TrimEndSpec(s);
    if s != [] {
      assert !IsJsSpace(s[|s| - 1]);
    }
  }

  /** `trim` is idempotent. */
  lemma TrimIdempotent(s: string)
    ensures Trim(Trim(s)) == Trim(s)
  {
    TrimSpec(s);
    TrimTrimmed(Trim(s));
  }

  /** `s.trim()` is empty exactly when `s` is all white space. */
  lemma TrimEmpty(s: string)
    ensures Trim(s) == [] <==> forall i :: 0 <= i < |s| ==> IsJsSpace(s[i])
  {
    TrimSpec(s);
    var r := Trim(s);
    if r != [] {
      assert s[|s| - |TrimStart(s)|] == r[0];
    }
  }

  /** `if (name && code)`: both trimmed inputs are non-empty, so the row is saved. */
  predicate Complete(e: Entry) {
    Trim(e.0) != [] && Trim(e.1) != []
  }

  /** Row `e` is saved under the name `k`. */
  predicate SavedAs(e: Entry, k: string) {
    Complete(e) && Trim(e.0) == k
  }

  /** One pass of the `forEach` in `saveConfigurations`: `newPageCodes[name] = code` for a complete row. */
  function Record(codes: Dict<string>, e: Entry): Dict<string> {
    if Complete(e) then codes.Set(Trim(e.0), Trim(e.1)) else codes
  }

  /** The object `newPageCodes` that `saveConfigurations` builds from the rows. */
  function PageCodes(rows: seq<Entry>): Dict<string> {
    if rows == [] then Empty() else Record(PageCodes(rows[..|rows| - 1]), rows[|rows| - 1])
  }

  /** Saving one more row is one more pass of the loop. */
  lemma PageCodesSnoc(rows: seq<Entry>, e: Entry)
    ensures PageCodes(rows + [e]) == Record(PageCodes(rows), e)
  {
    assert (rows + [e])[..|rows|] == rows;
  }

  /** The trimmed names of the complete rows, in row order, repeats included. */
  function SavedNames(rows: seq<Entry>): seq<string> {
    if rows == [] then []
    else SavedNames(rows[..|rows| - 1]) + (if Complete(rows[|rows| - 1]) then [Trim(rows[|rows| - 1].0)] else [])
  }

  /** The saved names are the names of the rows saved under them. */
  lemma {:induction false} SavedNamesSpec(rows: seq<Entry>)
    ensures forall k :: k in SavedNames(rows) <==> exists i :: 0 <= i < |rows| && SavedAs(rows[i], k)
  {
    if rows != [] {
      var init := rows[..|rows| - 1];
      SavedNamesSpec(init);
      var last := rows[|rows| - 1];
      assert SavedNames(rows) == SavedNames(init) + (if Complete(last) then [Trim(last.0)] else []);
      forall k ensures k in SavedNames(rows) <==> exists i :: 0 <= i < |rows| && SavedAs(rows[i], k) {
        if k in SavedNames(init) {
          var i :| 0 <= i < |init| && SavedAs(init[i], k);
          assert init[i] == rows[i];
          assert SavedAs(rows[i], k);
        } else if Complete(last) && Trim(last.0) == k {
          assert SavedAs(rows[|rows| - 1], k);
        } else {
          forall i | 0 <= i < |rows| ensures !SavedAs(rows[i], k) {
            if i < |init| {
              assert init[i] == rows[i];
              assert !SavedAs(init[i], k);
            }
          }
        }
      }
    }
  }

  /**
   * The saved object is well formed, its keys are the saved names, and they
   * stand in the order in which the names first occur among the saved rows.
   */
  lemma {:induction false} PageCodesKeys(rows: seq<Entry>)
    ensures PageCodes(rows).Valid()
    ensures forall k :: k in PageCodes(rows).vals <==> k in SavedNames(rows)
    ensures PageCodes(rows).keys == FirstSeen(SavedNames(rows))
  {
    if rows != [] {
      var init := rows[..|rows| - 1];
      var last := rows[|rows| - 1];
      PageCodesKeys(init);
      FirstSeenSpec(SavedNames(init));
      if Complete(last) {
        var name := Trim(last.0);
        PageCodes(init).SetSpec(name, Trim(last.1));
        var names := SavedNames(rows);
        assert names == SavedNames(init) + [name];
        assert names[..|names| - 1] == SavedNames(init);
        assert name in PageCodes(init).vals <==> name in FirstSeen(SavedNames(init));
      } else {
        assert SavedNames(rows) == SavedNames(init);
      }
    }
  }

  /** The saved object has a key for a name exactly when some complete row carries it. */
  lemma SavedKeys(rows: seq<Entry>)
    ensures PageCodes(rows).Valid()
    ensures forall k :: k in PageCodes(rows).vals <==> exists i :: 0 <= i < |rows| && SavedAs(rows[i], k)
  {
    PageCodesKeys(rows);
    SavedNamesSpec(rows);
  }

  /** Of several complete rows with one trimmed name, the last one's trimmed code is kept. */
  lemma {:induction false} LastRowWins(rows: seq<Entry>, i: int)
    requires 0 <= i < |rows| && Complete(rows[i])
    requires forall j :: i < j < |rows| ==> !SavedAs(rows[j], Trim(rows[i].0))
    ensures Trim(rows[i].0) in PageCodes(rows).vals
    ensures PageCodes(rows).vals[Trim(rows[i].0)] == Trim(rows[i].1)
  {
    var init := rows[..|rows| - 1];
    var last := rows[|rows| - 1];
    if i < |init| {
      assert rows[i] == init[i];
      forall j | i < j < |init| ensures !SavedAs(init[j], Trim(init[i].0)) {
        assert !SavedAs(rows[j], Trim(rows[i].0));
      }
      LastRowWins(init, i);
      assert !SavedAs(rows[|rows| - 1], Trim(rows[i].0));
    }
  }

  /** Every saved name and code is non-empty and has no white space at either end. */
  lemma SavedCodesTrimmed(rows: seq<Entry>)
    ensures forall k :: k in PageCodes(rows).vals ==>
      k != [] && Trimmed(k) && PageCodes(rows).vals[k] != [] && Trimmed(PageCodes(rows).vals[k])
  {
    SavedKeys(rows);
    forall k | k in PageCodes(rows).vals
      ensures k != [] && Trimmed(k) && PageCodes(rows).vals[k] != [] && Trimmed(PageCodes(rows).vals[k])
    {
      var w :| 0 <= w < |rows| && SavedAs(rows[w], k);
      var i := LastSavedAt(rows, k, w);
      LastRowWins(rows, i);
      TrimSpec(rows[i].0);
      TrimSpec(rows[i].1);
    }
  }

  /** The last row saved under `k`, given row `w` that is saved under it. */
  function LastSavedAt(rows: seq<Entry>, k: string, w: nat): (i: nat)
    requires w < |rows| && SavedAs(rows[w], k)
    ensures w <= i < |rows| && SavedAs(rows[i], k)
    ensures forall j :: i < j < |rows| ==> !SavedAs(rows[j], k)
  {
    if SavedAs(rows[|rows| - 1], k) then |rows| - 1
    else
      var init := rows[..|rows| - 1];
      assert init[w] == rows[w];
      var i := LastSavedAt(init, k, w);
      assert init[i] == rows[i];
      assert forall j :: i < j < |init| ==> init[j] == rows[j];
      i
  }

  /** An object whose names and codes are all non-empty and trimmed, as saving leaves it. */
  ghost predicate Clean(codes: Dict<string>) {
    codes.Valid()
    && forall k :: k in codes.vals ==> k != [] && Trimmed(k) && codes.vals[k] != [] && Trimmed(codes.vals[k])
  }

  /** A row whose name and code are non-empty and trimmed is saved as it stands. */
  lemma RecordClean(codes: Dict<string>, k: string, v: string)
    requires k != [] && Trimmed(k) && v != [] && Trimmed(v)
    ensures Record(codes, (k, v)) == codes.Set(k, v)
  {
    TrimTrimmed(k);
    TrimTrimmed(v);
  }

  /** Saving entry `n - 1` of a clean object after its first `n - 1` entries adds that key last. */
  lemma EntrySaved(codes: Dict<string>, n: nat, before: Dict<string>, after: Dict<string>)
    requires Clean(codes) && 0 < n <= |codes.keys|
    requires before.keys == codes.keys[..n - 1]
    requires forall k :: k in before.vals <==> k in codes.keys[..n - 1]
    requires forall k :: k in before.vals ==> before.vals[k] == codes.vals[k]
    requires after == Record(before, (codes.keys[n - 1], codes.vals[codes.keys[n - 1]]))
    ensures after.keys == codes.keys[..n]
    ensures forall k :: k in after.vals <==> k in codes.keys[..n]
    ensures forall k :: k in after.vals ==> after.vals[k] == codes.vals[k]
  {
    var k := codes.keys[n - 1];
    assert k !in codes.keys[..n - 1];
    RecordClean(before, k, codes.vals[k]);
    assert codes.keys[..n] == codes.keys[..n - 1] + [k];
  }

  /** Saving the first `n` rows of a clean object's entries rebuilds its first `n` keys and their codes. */
  lemma {:induction false} EntriesPrefixSaved(codes: Dict<string>, n: nat)
    requires Clean(codes) && n <= |codes.keys|
    ensures PageCodes(codes.Entries()[..n]).keys == codes.keys[..n]
    ensures forall k :: k in PageCodes(codes.Entries()[..n]).vals <==> k in codes.keys[..n]
    ensures forall k :: k in PageCodes(codes.Entries()[..n]).vals ==> PageCodes(codes.Entries()[..n]).vals[k] == codes.vals[k]
  {
    if n > 0 {
      var es := codes.Entries();
      var e := (codes.keys[n - 1], codes.vals[codes.keys[n - 1]]);
      EntriesPrefixSaved(codes, n - 1);
      assert es[..n] == es[..n - 1] + [e];
      PageCodesSnoc(es[..n - 1], e);
      EntrySaved(codes, n, PageCodes(es[..n - 1]), PageCodes(es[..n]));
    }
  }

  /** Two objects with the same keys in the same order and the same values are the same object. */
  lemma SameObject(a: Dict<string>, b: Dict<string>)
    requires b.Valid() && a.keys == b.keys
    requires forall k :: k in a.vals <==> k in b.keys
    requires forall k :: k in a.vals ==> a.vals[k] == b.vals[k]
    ensures a == b
  {
    assert a.vals == b.vals;
  }

  /** The empty row saves nothing. */
  lemma EmptyRowIgnored(codes: Dict<string>)
    ensures Record(codes, EmptyRow) == codes
  {
    assert Trim("") == [];
  }

  /** Saving the entries of a clean object stores that same object. */
  lemma EntriesSaveSame(codes: Dict<string>)
    requires Clean(codes)
    ensures PageCodes(codes.Entries()) == codes
  {
    var es := codes.Entries();
    var n := |codes.keys|;
    EntriesPrefixSaved(codes, n);
    assert es[..n] == es;
    assert codes.keys[..n] == codes.keys;
    var saved := PageCodes(es);
    assert saved.keys == codes.keys;
    SameObject(saved, codes);
  }

  /** Saving the rows a clean object is shown as, empty row included, stores that same object. */
  lemma ReloadSavesSame(codes: Dict<string>)
    requires Clean(codes)
    ensures PageCodes(codes.Entries() + [EmptyRow]) == codes
  {
    EntriesSaveSame(codes);
    PageCodesSnoc(codes.Entries(), EmptyRow);
    EmptyRowIgnored(codes);
  }

  /** Saving twice in a row, with no edit in between, stores the same object. */
  lemma SaveIsIdempotent(rows: seq<Entry>)
    ensures PageCodes(rows).Valid()
    ensures PageCodes(PageCodes(rows).Entries() + [EmptyRow]) == PageCodes(rows)
  {
    PageCodesKeys(rows);
    SavedCodesTrimmed(rows);
    ReloadSavesSame(PageCodes(rows));
  }

  /** The rows after `deleteEntry` on row `i`: unchanged for the `"Chef"` row, else without row `i`. */
  function Delete(rows: seq<Entry>, i: nat): (r: seq<Entry>)
    requires i < |rows|
    ensures Trim(rows[i].0) == "Chef" ==> r == rows
    ensures Trim(rows[i].0) != "Chef" ==>
      |r| == |rows| - 1 && forall j :: 0 <= j < |r| ==> r[j] == rows[if j < i then j else j + 1]
  {
    if Trim(rows[i].0) == "Chef" then rows else rows[..i] + rows[i + 1..]
  }

  /** No deletion removes a row named `"Chef"`. */
  lemma ChefRowsSurvive(rows: seq<Entry>, i: nat)
    requires i < |rows|
    ensures forall e :: e in rows && Trim(e.0) == "Chef" ==> e in Delete(rows, i)
  {
    forall e | e in rows && Trim(e.0) == "Chef" ensures e in Delete(rows, i) {
      var j :| 0 <= j < |rows| && rows[j] == e;
      if Trim(rows[i].0) != "Chef" {
        if j < i {
          assert Delete(rows, i)[j] == e;
        } else {
          assert Delete(rows, i)[j - 1] == e;
        }
      }
    }
  }

  /** Deleting a row never drops the `"Chef"` code from what the next save stores. */
  lemma ChefSavedAfterDelete(rows: seq<Entry>, i: nat)
    requires i < |rows|
    requires "Chef" in PageCodes(rows).vals
    ensures "Chef" in PageCodes(Delete(rows, i)).vals
  {
    SavedKeys(rows);
    SavedKeys(Delete(rows, i));
    var j :| 0 <= j < |rows| && SavedAs(rows[j], "Chef");
    ChefRowsSurvive(rows, i);
    var r := Delete(rows, i);
    assert rows[j] in r;
    var m :| 0 <= m < |r| && r[m] == rows[j];
    assert SavedAs(r[m], "Chef");
  }

  /** `defaultPageCodes` (config.js:2-14): ten employees and the `"Chef"` code. */
  function DefaultCodes(): (d: Dict<string>)
    ensures d.Valid()
    ensures "Chef" in d.vals && d.vals["Chef"] == "2024"
  {
    var ps := [("Jean", "101"), ("Maria", "102"), ("Luc", "103"), ("Kevin", "104"), ("Mickael", "105"),
               ("Julie", "106"), ("Bertrand", "107"), ("Anaelle", "108"), ("Richard", "109"), ("Helene", "110"),
               ("Chef", "2024")];
    LiteralValid(ps);
    Literal(ps)
  }

  /** `JSON.parse(localStorage.getItem('pageCodes')) || defaultPageCodes`. */
  function StoredCodes(stored: Option<Dict<string>>): Dict<string> {
    match stored
    case Some(codes) => codes
    case None => DefaultCodes()
  }

  /** Saving goes through `newPageCodes` one row at a time (config.js:61-71). */
  method CollectCodes(rows: seq<Entry>) returns (codes: Dict<string>)
    ensures codes == PageCodes(rows)
  {
    codes := Empty();
    var i := 0;
    while i < |rows|
      invariant 0 <= i <= |rows|
      invariant codes == PageCodes(rows[..i])
    {
      var name := Trim(rows[i].0);
      var code := Trim(rows[i].1);
      if name != [] && code != [] {
        codes := codes.Set(name, code);
      }
      assert rows[..i + 1][..i] == rows[..i];
      i := i + 1;
    }
    assert rows[..|rows|] == rows;
  }

  /** The configuration page: its rows and the stored `pageCodes`. */
  class ConfigPage {
    var rows: seq<Entry>
    var stored: Option<Dict<string>>

    /** The stored object, when there is one, is a well-formed object. */
    ghost predicate Valid()
      reads this
    {
      StoredCodes(stored).Valid()
    }

    /** The page as `DOMContentLoaded` leaves it: `loadPageCodes()` on what is stored. */
    constructor (saved: Option<Dict<string>>)
      requires StoredCodes(saved).Valid()
      ensures Valid() && stored == saved
      ensures rows == StoredCodes(saved).Entries() + [EmptyRow]
    {
      rows := [];
      stored := saved;
      new;
      LoadPageCodes();
    }

    /** `loadPageCodes`: one row per stored entry in key order, then one empty row. */
    method LoadPageCodes()
      requires Valid()
      modifies this
      ensures Valid() && stored == old(stored)
      ensures rows == StoredCodes(stored).Entries() + [EmptyRow]
      ensures |rows| == |StoredCodes(stored).keys| + 1
    {
      var codes := StoredCodes(stored);
      rows := [];
      var i := 0;
      while i < |codes.keys|
        invariant 0 <= i <= |codes.keys|
        invariant stored == old(stored)
        invariant rows == codes.Entries()[..i]
      {
        var person := codes.keys[i];
        rows := rows + [(person, codes.vals[person])];
        i := i + 1;
      }
      AddEmptyEntry();
    }

    /** `addEmptyEntry`: a row with both inputs empty goes last. */
    method AddEmptyEntry()
      modifies this
      ensures stored == old(stored)
      ensures rows == old(rows) + [EmptyRow]
    {
      rows := rows + [EmptyRow];
    }

    /** `saveConfigurations`: store what the rows save, then reload the page from it. */
    method SaveConfigurations()
      requires Valid()
      modifies this
      ensures Valid()
      ensures stored == Some(PageCodes(old(rows)))
      ensures rows == PageCodes(old(rows)).Entries() + [EmptyRow]
    {
      var codes := CollectCodes(rows);
      PageCodesKeys(rows);
      stored := Some(codes);
      LoadPageCodes();
    }

    /** `deleteEntry` on row `i`: refused for the `"Chef"` row, otherwise the row goes. */
    method DeleteEntry(i: nat)
      requires i < |rows|
      modifies this
      ensures stored == old(stored)
      ensures rows == Delete(old(rows), i)
    {
      var name := Trim(rows[i].0);
      if name == "Chef" {
        return;
      }
      rows := rows[..i] + rows[i + 1..];
    }
  }
}
