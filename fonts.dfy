/** The built-in font catalogue, its flattening into one list, and the
    font-picker filter: a non-blank search lists every font (built-in, then
    custom) whose lower-cased label contains the lower-cased query; a blank
    search lists the catalogue's categories, then the custom fonts. */
module Fonts {
  import opened Wrappers
  import opened JsText

  /** A selectable font: CSS family name, caption shown in the picker (`label`), CSS
      weight, and the stylesheet to load (None for a system font). */
  datatype Font = Font(name: string, caption: string, weight: string, url: Option<string>)

  /** A group of fonts in the picker under a caption (`label`). */
  datatype Category = Category(caption: string, fonts: seq<Font>)

  /** A Google Fonts family whose label is its name. */
  function Google(name: string, weight: string, url: string): Font {
    Font(name, name, weight, Some(url))
  }

  /** The four built-in categories, in picker order. */
  const FontCategories: seq<Category> := [
    Category("Blackletter & Fraktur", [
      Google("UnifrakturMaguntia", "400", "https://fonts.googleapis.com/css2?family=UnifrakturMaguntia&display=swap"),
      Google("UnifrakturCook", "700", "https://fonts.googleapis.com/css2?family=UnifrakturCook:wght@700&display=swap"),
      Google("Fruktur", "400", "https://fonts.googleapis.com/css2?family=Fruktur&display=swap"),
      Google("Grenze Gotisch", "700", "https://fonts.googleapis.com/css2?family=Grenze+Gotisch:wght@700&display=swap"),
      Google("Grenze", "700", "https://fonts.googleapis.com/css2?family=Grenze:wght@700&display=swap"),
      Google("Texturina", "700", "https://fonts.googleapis.com/css2?family=Texturina:wght@700&display=swap")
    ]),
    Category("Gothic & Medieval", [
      Google("Pirata One", "400", "https://fonts.googleapis.com/css2?family=Pirata+One&display=swap"),
      Google("MedievalSharp", "400", "https://fonts.googleapis.com/css2?family=MedievalSharp&display=swap"),
      Google("Almendra", "700", "https://fonts.googleapis.com/css2?family=Almendra:wght@700&display=swap"),
      Google("Almendra Display", "400", "https://fonts.googleapis.com/css2?family=Almendra+Display&display=swap"),
      Google("Astloch", "700", "https://fonts.googleapis.com/css2?family=Astloch:wght@700&display=swap"),
      Google("Uncial Antiqua", "400", "https://fonts.googleapis.com/css2?family=Uncial+Antiqua&display=swap")
    ]),
    Category("Ornate & Display", [
      Google("Cinzel Decorative", "700", "https://fonts.googleapis.com/css2?family=Cinzel+Decorative:wght@700&display=swap"),
      Google("Cinzel", "700", "https://fonts.googleapis.com/css2?family=Cinzel:wght@700&display=swap"),
      Google("Playfair Display", "700", "https://fonts.googleapis.com/css2?family=Playfair+Display:wght@700&display=swap"),
      Google("Abril Fatface", "400", "https://fonts.googleapis.com/css2?family=Abril+Fatface&display=swap"),
      Google("Monoton", "400", "https://fonts.googleapis.com/css2?family=Monoton&display=swap"),
      Google("Bungee Shade", "400", "https://fonts.googleapis.com/css2?family=Bungee+Shade&display=swap")
    ]),
    Category("System Fonts", [
      Font("serif", "System Serif", "bold", None),
      Font("sans-serif", "System Sans", "bold", None),
      Font("monospace", "Monospace", "bold", None)
    ])
  ]

  /** `flatMap((c) => c.fonts)`: the fonts of every category, category by
      category, so as many fonts as all categories hold together. */
  function Flatten(cats: seq<Category>): (r: seq<Font>)
    ensures |r| == TotalFonts(cats)
  {
    if cats == [] then [] else cats[0].fonts + Flatten(cats[1..])
  }

  /** Every built-in font in one list (`ALL_FONTS`). */
  function AllFonts(): seq<Font> {
    Flatten(FontCategories)
  }

  /** Flattening two lists of categories one after the other. */
  lemma {:induction false} FlattenAppend(a: seq<Category>, b: seq<Category>)
    ensures Flatten(a + b) == Flatten(a) + Flatten(b)
  {
    if a != [] {
      assert (a + b)[1..] == a[1..] + b;
      FlattenAppend(a[1..], b);
    } else {
      assert a + b == b;
    }
  }

  /** A font is in the flattened list exactly when some category holds it. */
  lemma {:induction false} FlattenMembers(cats: seq<Category>)
    ensures forall f :: f in Flatten(cats) <==> exists c :: c in cats && f in c.fonts
  {
    if cats != [] {
      FlattenMembers(cats[1..]);
      assert forall c :: c in cats <==> c == cats[0] || c in cats[1..];
    }
  }

  /** The number of fonts in all categories together. */
  function TotalFonts(cats: seq<Category>): nat {
    if cats == [] then 0 else |cats[0].fonts| + TotalFonts(cats[1..])
  }

  /** `ALL_FONTS` holds the 21 built-in fonts: the 18 web fonts first, then
      the three system fonts, and it starts with the default selection. */
  lemma AllFontsShape()
    ensures |AllFonts()| == 21
    ensures forall i :: 0 <= i < 18 ==> AllFonts()[i].url.Some?
    ensures forall i :: 18 <= i < 21 ==> AllFonts()[i].url == None
    ensures AllFonts()[0].name == "UnifrakturMaguntia"
  {
    var cs := FontCategories;
    assert AllFonts() == cs[0].fonts + (cs[1].fonts + (cs[2].fonts + (cs[3].fonts + [])));
  }

  /** The catalogue's fonts are exactly those of its categories. */
  lemma AllFontsMembers()
    ensures forall f :: f in AllFonts() <==> exists c :: c in FontCategories && f in c.fonts
  {
    FlattenMembers(FontCategories);
  }

  // ---------------------------------------------------------------- search

  /** `f.label.toLowerCase().includes(query.toLowerCase())`, with the lower-casing left abstract. */
  predicate Matches(f: Font, query: string, lower: string -> string) {
    Includes(lower(f.caption), lower(query))
  }

  /** `fonts.filter(...)` with the search predicate. */
  function SearchFonts(fonts: seq<Font>, query: string, lower: string -> string): (r: seq<Font>)
    ensures forall f :: f in r <==> f in fonts && Matches(f, query, lower)
    ensures IsSubsequence(r, fonts)
  {
    if fonts == [] then []
    else
      var rest := SearchFonts(fonts[1..], query, lower);
      SubsequenceSkip(rest, fonts);
      if Matches(fonts[0], query, lower) then [fonts[0]] + rest else rest
  }

  /** r can be obtained from s by deleting elements, keeping the order of the rest. */
  predicate IsSubsequence<T(==)>(r: seq<T>, s: seq<T>)
    decreases |s|
  {
    || r == []
    || (s != [] && ((r[0] == s[0] && IsSubsequence(r[1..], s[1..])) || IsSubsequence(r, s[1..])))
  }

  /** A subsequence of s[1..] is one of s, with or without s[0] in front. */
  lemma SubsequenceSkip<T>(r: seq<T>, s: seq<T>)
    requires s != [] && IsSubsequence(r, s[1..])
    ensures IsSubsequence(r, s)
    ensures IsSubsequence([s[0]] + r, s)
  {
    assert ([s[0]] + r)[1..] == r;
  }

  /** Each font appears in the result as many times as in the input when it
      matches, and not at all when it does not. */
  lemma {:induction false} SearchCounts(fonts: seq<Font>, query: string, lower: string -> string)
    ensures forall f :: multiset(SearchFonts(fonts, query, lower))[f]
                        == if Matches(f, query, lower) then multiset(fonts)[f] else 0
  {
    if fonts != [] {
      SearchCounts(fonts[1..], query, lower);
      assert fonts == [fonts[0]] + fonts[1..];
    }
  }

  /** Searching a concatenation searches each part, in order: built-in
      matches always precede custom ones. */
  lemma {:induction false} SearchAppend(xs: seq<Font>, ys: seq<Font>, query: string, lower: string -> string)
    ensures SearchFonts(xs + ys, query, lower) == SearchFonts(xs, query, lower) + SearchFonts(ys, query, lower)
  {
    if xs != [] {
      assert (xs + ys)[1..] == xs[1..] + ys;
      SearchAppend(xs[1..], ys, query, lower);
    } else {
      assert xs + ys == ys;
    }
  }

  /** Typing more never adds fonts: when the lower-cased old query occurs in
      the lower-cased new one, the new result is a subsequence of the old. */
  lemma {:induction false} SearchNarrows(fonts: seq<Font>, q1: string, q2: string, lower: string -> string)
    requires Includes(lower(q2), lower(q1))
    ensures IsSubsequence(SearchFonts(fonts, q2, lower), SearchFonts(fonts, q1, lower))
  {
    if fonts != [] {
      var f := fonts[0];
      var r1 := SearchFonts(fonts[1..], q1, lower);
      var r2 := SearchFonts(fonts[1..], q2, lower);
      SearchNarrows(fonts[1..], q1, q2, lower);
      if Matches(f, q2, lower) {
        IncludesTransitive(lower(f.caption), lower(q2), lower(q1));
        assert ([f] + r2)[1..] == r2 && ([f] + r1)[1..] == r1;
      } else if Matches(f, q1, lower) {
        assert ([f] + r1)[1..] == r1;
        SubsequenceSkip(r2, [f] + r1);
      }
    }
  }

  /** Two queries with the same lower-cased form select the same fonts, and
      fonts whose labels lower-case alike are selected together. */
  lemma SearchIgnoresCase(fonts: seq<Font>, q1: string, q2: string, lower: string -> string)
    requires lower(q1) == lower(q2)
    ensures SearchFonts(fonts, q1, lower) == SearchFonts(fonts, q2, lower)
    decreases |fonts|
  {
    if fonts != [] {
      SearchIgnoresCase(fonts[1..], q1, q2, lower);
    }
  }

  /** `filteredCategories`: one "Search Results" category for a non-blank
      search (matched against the untrimmed query), else the built-in
      categories followed by "Custom Fonts" when there are custom fonts. */
  function FilteredCategories(search: string, custom: seq<Font>, lower: string -> string): (r: seq<Category>)
    ensures |r| >= 1
    ensures !IsBlank(search) <==> |r| == 1 && r[0].caption == "Search Results"
  {
    if !IsBlank(search) then
      [Category("Search Results", SearchFonts(AllFonts() + custom, search, lower))]
    else
      FontCategories + (if |custom| > 0 then [Category("Custom Fonts", custom)] else [])
  }

  /** A non-blank search gives a single category listing, in catalogue order
      and then custom order, exactly the fonts whose label matches. */
  lemma SearchResults(search: string, custom: seq<Font>, lower: string -> string)
    requires !IsBlank(search)
    ensures var r := FilteredCategories(search, custom, lower);
            && |r| == 1 && r[0].caption == "Search Results"
            && IsSubsequence(r[0].fonts, AllFonts() + custom)
            && (forall f :: f in r[0].fonts <==> (f in AllFonts() || f in custom) && Matches(f, search, lower))
            && r[0].fonts == SearchFonts(AllFonts(), search, lower) + SearchFonts(custom, search, lower)
  {
    SearchAppend(AllFonts(), custom, search, lower);
  }

  /** A blank search (empty or only white space) shows the four built-in
      categories unchanged, then a "Custom Fonts" category exactly when there
      are custom fonts; the listed fonts, category by category, are exactly
      `ALL_FONTS` followed by the custom list. */
  lemma BlankSearch(search: string, custom: seq<Font>, lower: string -> string)
    requires IsBlank(search)
    ensures var r := FilteredCategories(search, custom, lower);
            && r[..|FontCategories|] == FontCategories
            && (|custom| > 0 <==> |r| == |FontCategories| + 1)
            && (|custom| > 0 ==> r[|FontCategories|] == Category("Custom Fonts", custom))
            && (|custom| == 0 ==> r == FontCategories)
            && Flatten(r) == AllFonts() + custom
  {
    var extra := if |custom| > 0 then [Category("Custom Fonts", custom)] else [];
    FlattenAppend(FontCategories, extra);
    assert Flatten(extra) == custom by {
      if |custom| > 0 {
        assert extra[1..] == [];
      }
    }
  }

  /** The list shown depends on the query only through its blankness and its
      lower-cased form. */
  lemma FilterIgnoresCase(q1: string, q2: string, custom: seq<Font>, lower: string -> string)
    requires IsBlank(q1) == IsBlank(q2) && lower(q1) == lower(q2)
    ensures FilteredCategories(q1, custom, lower) == FilteredCategories(q2, custom, lower)
  {
    SearchIgnoresCase(AllFonts() + custom, q1, q2, lower);
  }
}
