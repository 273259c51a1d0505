/** The site table and the choice of traffic sites to keep: `map_suburb_2_site`, and the
    clean-up of suburb names that the table was built with. */
module Sites {
  import opened Common
  import opened Text

  /** One row of the site table. `suburb` is missing for a site that no suburb
      polygon contains (the spatial join is a left join). */
  datatype SiteRecord = SiteRecord(siteId: int, siteName: string, suburb: Option<string>)

  /** The suburbs whose sites are kept, as listed by the program. */
  const SelectedSuburbs: seq<string> :=
    ["East Melbourne", "Richmond", "Cremorne", "Jolimont", "Melbourne",
     "South Yarra", "Southbank", "South Melbourne", "Fitzroy", "Collingwood"]

  /** `isin(SELECTED_SUBURBS)` on the suburb column: exact, case-sensitive equality;
      a missing suburb never matches. */
  predicate Qualifies(r: SiteRecord)
  {
    r.suburb.Some? && r.suburb.value in SelectedSuburbs
  }

  /** `map_suburb_2_site`: the `site_id` of every qualifying row, in table order,
      duplicates kept. */
  function SelectSites(table: seq<SiteRecord>): (ids: seq<int>)
    ensures |ids| <= |table|
    ensures forall id :: id in ids <==> exists r :: r in table && Qualifies(r) && r.siteId == id
  {
    if table == [] then []
    else
      assert table == [table[0]] + table[1..];
      (if Qualifies(table[0]) then [table[0].siteId] else []) + SelectSites(table[1..])
  }

  /** Selection works row by row: splitting the table splits the result at the same
      place, so table order and repeated ids are kept. */
  lemma {:induction false} SelectSitesAppend(a: seq<SiteRecord>, b: seq<SiteRecord>)
    ensures SelectSites(a + b) == SelectSites(a) + SelectSites(b)
  {
    if a == [] {
      assert a + b == b;
    } else {
      var head := if Qualifies(a[0]) then [a[0].siteId] else [];
      assert (a + b)[0] == a[0] && (a + b)[1..] == a[1..] + b;
      assert SelectSites(a + b) == head + SelectSites(a[1..] + b);
      assert SelectSites(a) == head + SelectSites(a[1..]);
      SelectSitesAppend(a[1..], b);
      ConcatAssoc(head, SelectSites(a[1..]), SelectSites(b));
    }
  }

  /** The suffix removed from suburb names by the pattern `\s*\(Vic\.\)$`. */
  const VicSuffix: string := "(Vic.)"

  /** Removes the whitespace at the end of `s`. */
  function TrimTrailingSpace(s: string): (r: string)
    ensures r <= s
    ensures r == [] || !IsSpace(r[|r| - 1])
    ensures forall i :: |r| <= i < |s| ==> IsSpace(s[i])
  {
    if s != [] && IsSpace(s[|s| - 1]) then TrimTrailingSpace(s[..|s| - 1]) else s
  }

  /** A string ends with the marker or with the marker and a newline, not both. */
  lemma VicEndingsDisjoint(s: string)
    requires EndsWith(s, VicSuffix)
    ensures !EndsWith(s, VicSuffix + "\n")
  {
    assert s[|s| - 1] == s[|s| - |VicSuffix|..][|VicSuffix| - 1] == ')';
  }

  /** `r` is what is left of `s` once the whitespace run ending at `cut`, and everything
      from `cut` on, are removed: a prefix of `s` that ends in no whitespace, followed in
      `s` by whitespace only up to `cut`. */
  predicate StrippedAt(s: string, cut: int, r: string)
  {
    |r| <= cut <= |s| && r <= s && (r == [] || !IsSpace(r[|r| - 1]))
    && forall i :: |r| <= i < cut ==> IsSpace(s[i])
  }

  /** The whitespace run ending at `cut` and everything after it removed from `s`. */
  function StripBefore(s: string, cut: nat): (r: string)
    requires cut <= |s|
    ensures StrippedAt(s, cut, r)
  {
    var r := TrimTrailingSpace(s[..cut]);
    assert forall i :: |r| <= i < cut ==> s[i] == s[..cut][i];
    r
  }

  /** `str.replace(r"\s*\(Vic\.\)$", "", regex=True)` on one suburb name. The leftmost
      match starts at the first of the whitespace characters before a final `(Vic.)`;
      `$` also matches just before a newline that ends the string, which is kept. */
  function StripVicSuffix(s: string): (r: string)
    ensures |r| <= |s|
    // The marker and the whitespace before it are gone; the name before them is kept.
    ensures EndsWith(s, VicSuffix) ==> StrippedAt(s, |s| - |VicSuffix|, r)
    // The same before a final newline, which stays at the end.
    ensures EndsWith(s, VicSuffix + "\n") ==>
      0 < |r| && r[|r| - 1] == '\n' && StrippedAt(s, |s| - |VicSuffix| - 1, r[..|r| - 1])
    ensures !EndsWith(s, VicSuffix) && !EndsWith(s, VicSuffix + "\n") ==> r == s
  {
    if EndsWith(s, VicSuffix) then
      VicEndingsDisjoint(s);
      StripBefore(s, |s| - |VicSuffix|)
    else if EndsWith(s, VicSuffix + "\n") then
      var name := StripBefore(s, |s| - |VicSuffix| - 1);
      assert (name + "\n")[..|name|] == name;
      name + "\n"
    else s
  }

  lemma {:induction false} TrimTrailingSpaceOf(name: string, ws: string)
    requires name == [] || !IsSpace(name[|name| - 1])
    requires forall i :: 0 <= i < |ws| ==> IsSpace(ws[i])
    ensures TrimTrailingSpace(name + ws) == name
  {
    if ws == [] {
      assert name + ws == name;
    } else {
      var s := name + ws;
      assert s[..|s| - 1] == name + ws[..|ws| - 1];
      TrimTrailingSpaceOf(name, ws[..|ws| - 1]);
    }
  }

  /** A name tagged with the state marker, with any whitespace between, is given back
      exactly: `"Richmond (Vic.)"` becomes `"Richmond"`. */
  lemma StripVicSuffixOfTagged(name: string, ws: string)
    requires name == [] || !IsSpace(name[|name| - 1])
    requires forall i :: 0 <= i < |ws| ==> IsSpace(ws[i])
    ensures StripVicSuffix(name + ws + VicSuffix) == name
  {
    var s := name + ws + VicSuffix;
    assert s[|s| - |VicSuffix|..] == VicSuffix;
    assert s[..|s| - |VicSuffix|] == name + ws;
    TrimTrailingSpaceOf(name, ws);
  }

  /** Before a final newline the marker goes the same way and the newline stays:
      `"Richmond (Vic.)\n"` becomes `"Richmond\n"`. */
  lemma StripVicSuffixOfTaggedLine(name: string, ws: string)
    requires name == [] || !IsSpace(name[|name| - 1])
    requires forall i :: 0 <= i < |ws| ==> IsSpace(ws[i])
    ensures StripVicSuffix(name + ws + VicSuffix + "\n") == name + "\n"
  {
    var s := name + ws + VicSuffix + "\n";
    assert s[|s| - |VicSuffix| - 1..] == VicSuffix + "\n";
    assert s[|s| - |VicSuffix|..] != VicSuffix by {
      assert s[|s| - 1] == '\n';
    }
    assert s[..|s| - |VicSuffix| - 1] == name + ws;
    TrimTrailingSpaceOf(name, ws);
  }
}
