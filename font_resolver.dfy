/**
 * Font-family resolution: a CSS-style family string is normalised to one
 * name, which a fixed name-to-file table turns into the path of a font file.
 */
module FontResolver {
  import opened Wrappers
  import opened PyStr

  /** Why a family could not be resolved; both are raised as `ValueError`. */
  datatype FontError =
    | Unsupported(family: string, supported: set<string>)  // no table entry for the normalised name
    | FileNotFound(path: string)                            // the table names a file that does not exist

  /** The characters `strip('"\'')` removes. */
  predicate IsQuote(c: char) {
    c == '"' || c == '\''
  }

  /**
   * The name looked up in the table: quotes stripped from both ends of the
   * whole string, then the first comma-separated entry, then whitespace
   * trimmed, in that order.
   */
  function NormalizeFamily(family: string): (name: string)
    ensures ',' !in name
    ensures name != [] ==> !IsSpace(name[0]) && !IsSpace(name[|name| - 1])
    ensures |name| <= |family|
  {
    Strip(BeforeFirst(Strip(family, IsQuote), ','), IsSpace)
  }

  /**
   * The name is fixed by three cut points: whenever `family[i..j]` is the
   * family with its surrounding quotes removed, and `e[a..b]` is the first
   * comma-separated entry `e` of that text with its surrounding whitespace
   * removed, the name looked up is `e[a..b]`.
   */
  lemma NormalizeFamilyExact(family: string, i: nat, j: nat, a: nat, b: nat)
    requires StrippedAt(family, IsQuote, i, j)
    requires i < j ==> !IsQuote(family[i]) && !IsQuote(family[j - 1])
    requires StrippedAt(BeforeFirst(family[i..j], ','), IsSpace, a, b)
    requires a < b ==> !IsSpace(BeforeFirst(family[i..j], ',')[a]) && !IsSpace(BeforeFirst(family[i..j], ',')[b - 1])
    ensures NormalizeFamily(family) == BeforeFirst(family[i..j], ',')[a..b]
  {
    StripExact(family, IsQuote, i, j);
    StripExact(BeforeFirst(family[i..j], ','), IsSpace, a, b);
  }

  /** A quoted name on its own, `"Times New Roman"`, is looked up without its quotes. */
  lemma QuotedNameAlone(n: string)
    requires n != [] && ',' !in n
    requires !IsQuote(n[0]) && !IsQuote(n[|n| - 1])
    requires !IsSpace(n[0]) && !IsSpace(n[|n| - 1])
    ensures NormalizeFamily("\"" + n + "\"") == n
  {
    var q := "\"" + n + "\"";
    assert q[1..|n| + 1] == n;
    assert q[1] == n[0] && q[|n|] == n[|n| - 1];
    assert StrippedAt(q, IsQuote, 1, |n| + 1);
    StripExact(q, IsQuote, 1, |n| + 1);
    assert BeforeFirst(n, ',') == n by {
      var b := BeforeFirst(n, ',');
      assert |b| == |n|;
    }
    StripUnchanged(n, IsSpace);
  }

  /** A bare family name (no comma, nothing to strip at either end) is looked up as it is. */
  lemma PlainNameUnchanged(name: string)
    requires name != [] && ',' !in name
    requires !IsQuote(name[0]) && !IsQuote(name[|name| - 1])
    requires !IsSpace(name[0]) && !IsSpace(name[|name| - 1])
    ensures NormalizeFamily(name) == name
  {
    assert BeforeFirst(name, ',') == name by {
      var b := BeforeFirst(name, ',');
      assert |b| == |name|;
    }
  }

  /** Of a fallback list `first, rest`, only the first entry is looked up. */
  lemma FallbackListTakesFirst(first: string, rest: string)
    requires first != [] && ',' !in first
    requires !IsQuote(first[0])
    requires !IsSpace(first[0]) && !IsSpace(first[|first| - 1])
    ensures NormalizeFamily(first + "," + rest) == first
  {
    var s := first + "," + rest;
    assert LStrip(s, IsQuote) == s;
    RStripStopsAt(first, ',', rest, IsQuote);
    var unquoted := first + [','] + RStrip(rest, IsQuote);
    assert Strip(s, IsQuote) == unquoted;
    BeforeFirstOfJoined(first, ',', RStrip(rest, IsQuote));
    StripUnchanged(first, IsSpace);
  }

  /**
   * Quotes are stripped before the list is split, so a quoted first entry
   * followed by a fallback keeps its closing quote: `"Arial", serif` is
   * looked up as `Arial"`.
   */
  lemma QuotedEntryKeepsClosingQuote(first: string, rest: string)
    requires first != [] && ',' !in first
    requires !IsQuote(first[0]) && !IsSpace(first[0])
    ensures NormalizeFamily("\"" + first + "\"," + rest) == first + "\""
  {
    var entry := first + "\"";
    var t := entry + "," + rest;
    var s := "\"" + first + "\"," + rest;
    assert s == ['"'] + t && s[1..] == t;
    assert LStrip(t, IsQuote) == t;
    assert LStrip(s, IsQuote) == t;
    RStripStopsAt(entry, ',', rest, IsQuote);
    var unquoted := entry + [','] + RStrip(rest, IsQuote);
    assert Strip(s, IsQuote) == unquoted;
    BeforeFirstOfJoined(entry, ',', RStrip(rest, IsQuote));
    StripUnchanged(entry, IsSpace);
  }

  /**
   * `get_font_path`: the file the table gives for the normalised name.
   * `table` maps family names to file paths; `existing` is the set of paths
   * for which a file exists.
   */
  function ResolveFontPath(family: string, table: map<string, string>, existing: set<string>): (r: Result<string, FontError>)
    ensures var name := NormalizeFamily(family);
            r.Success? <==> name in table && table[name] != [] && table[name] in existing
    ensures var name := NormalizeFamily(family);
            r.Success? ==> r.value == table[name]
    ensures var name := NormalizeFamily(family);
            r.Failure? ==> r.error == if name in table && table[name] != [] then FileNotFound(table[name])
                                      else Unsupported(name, table.Keys)
  {
    var name := NormalizeFamily(family);
    var path := if name in table then table[name] else [];
    if path == [] then Failure(Unsupported(name, table.Keys))
    else if path !in existing then Failure(FileNotFound(path))
    else Success(path)
  }

  /** A few entries of the server's table; "Times" and "Times New Roman" share one file. */
  function SampleTable(): (table: map<string, string>)
    ensures "Times" in table && "Times New Roman" in table
    ensures table["Times"] == table["Times New Roman"]
  {
    map[
      "Arial" := "fonts/arial.ttf",
      "Arial Bold" := "fonts/arialbd.ttf",
      "Times" := "fonts/times.ttf",
      "Times New Roman" := "fonts/times.ttf",
      "Roboto" := "fonts/Roboto-Regular.ttf",
      "Courier New" := "fonts/cour.ttf"
    ]
  }

  /** Two names that share a file resolve to the same result, whatever files exist. */
  lemma SharedFileSameResult(a: string, b: string, table: map<string, string>, existing: set<string>)
    requires NormalizeFamily(a) in table && NormalizeFamily(b) in table
    requires table[NormalizeFamily(a)] == table[NormalizeFamily(b)] != []
    ensures ResolveFontPath(a, table, existing) == ResolveFontPath(b, table, existing)
  {
  }
}
