/** Adding a custom font from the two text fields of the picker
    (`addCustomFont`): the trimmed name becomes the family, the URL field
    (or, when it is blank, the Google Fonts stylesheet for that family) its
    stylesheet, and the font is appended to the custom list and selected.
    Loading the stylesheet and the loading flag are not part of this model. */
module CustomFonts {
  import opened Wrappers
  import opened JsText
  import opened Fonts
  import opened UriEncoding

  const GoogleCssPrefix: string := "https://fonts.googleapis.com/css2?family="
  const DisplaySwap: string := "&display=swap"

  /** The mark in front of a custom font's caption. */
  const CustomMark: char := '\U{2726}'

  /** The picker state `addCustomFont` reads and writes. */
  datatype Picker = Picker(custom: seq<Font>, selected: Font, nameInput: string, urlInput: string)

  /** The stylesheet of a new custom font: the trimmed URL field when it is not
      blank, else the Google Fonts CSS URL of the trimmed, URI-encoded name.
      Either way there is a stylesheet to load: the URL is never blank. */
  function StylesheetUrl(nameInput: string, urlInput: string): (url: string)
    ensures !IsBlank(url)
  {
    if !IsBlank(urlInput) then
      TrimIdempotent(urlInput);
      Trim(urlInput)
    else
      var url := GoogleCssPrefix + EncodeUriComponent(Trim(nameInput)) + DisplaySwap;
      assert !IsJsSpace(url[0]);
      url
  }

  /** The font the two fields describe, or None when the name is blank. Its
      family is the trimmed name, which is neither blank nor padded. */
  function NewCustomFont(nameInput: string, urlInput: string): (r: Option<Font>)
    ensures r.None? <==> IsBlank(nameInput)
    ensures r.Some? ==> r.value.name == Trim(nameInput)
                        && !IsBlank(r.value.name) && Trim(r.value.name) == r.value.name
  {
    if IsBlank(nameInput) then None
    else
      var name := Trim(nameInput);
      TrimIdempotent(nameInput);
      Some(Font(name, [CustomMark, ' '] + name, "400", Some(StylesheetUrl(nameInput, urlInput))))
  }

  /** `addCustomFont` once its stylesheet has loaded. A blank name changes
      nothing (the early return). Otherwise exactly one font is appended and
      selected, the earlier custom fonts are kept, and both fields are cleared;
      the font's family is the trimmed name, its caption the mark, a space and
      the family, its weight 400 and its stylesheet the computed URL. */
  function AddCustomFont(p: Picker): (q: Picker)
    ensures IsBlank(p.nameInput) ==> q == p
    ensures !IsBlank(p.nameInput) ==>
              && |q.custom| == |p.custom| + 1
              && q.custom[..|p.custom|] == p.custom
              && q.selected == q.custom[|p.custom|]
              && q.nameInput == "" && q.urlInput == ""
              && q.selected.name == Trim(p.nameInput)
              && !IsBlank(q.selected.name) && Trim(q.selected.name) == q.selected.name
              && q.selected.caption == [CustomMark, ' '] + q.selected.name
              && q.selected.weight == "400"
              && q.selected.url == Some(StylesheetUrl(p.nameInput, p.urlInput))
  {
    match NewCustomFont(p.nameInput, p.urlInput)
    case None => p
    case Some(f) =>
      assert (p.custom + [f])[..|p.custom|] == p.custom;
      Picker(p.custom + [f], f, "", "")
  }

  /** The family named in a Google Fonts stylesheet URL, decoded. */
  function FamilyOf(url: string): Option<string> {
    match StripPrefix(GoogleCssPrefix, url)
    case None => None
    case Some(query) =>
      match PercentDecode(TakeUntil(query, '&'))
      case None => None
      case Some(bytes) => Utf8Decode(bytes)
  }

  // ---------------------------------------------------------------- properties

  /** The encoded family ends at the `&` that starts `&display=swap`. */
  lemma FamilyParameter(name: string)
    ensures TakeUntil(EncodeUriComponent(name) + DisplaySwap, '&') == EncodeUriComponent(name)
  {
    var enc := EncodeUriComponent(name);
    assert DisplaySwap == ['&'] + "display=swap";
    assert enc + DisplaySwap == enc + ['&'] + "display=swap";
    EncodedIsSafe(name);
    TakeUntilConcat(enc, '&', "display=swap");
  }

  /** The Google Fonts URL built for a name reads back as that name. */
  lemma FamilyOfGoogleUrl(name: string)
    ensures FamilyOf(GoogleCssPrefix + EncodeUriComponent(name) + DisplaySwap) == Some(name)
  {
    var enc := EncodeUriComponent(name);
    assert GoogleCssPrefix + enc + DisplaySwap == GoogleCssPrefix + (enc + DisplaySwap);
    StripPrefixConcat(GoogleCssPrefix, enc + DisplaySwap);
    FamilyParameter(name);
    EncodeRoundTrip(name);
  }

  /** With a blank URL field, the generated stylesheet URL names exactly the
      trimmed font name: its `family` parameter decodes back to it, so no
      character of the name can break the query string. */
  lemma DefaultUrlNamesFamily(nameInput: string, urlInput: string)
    requires IsBlank(urlInput)
    ensures FamilyOf(StylesheetUrl(nameInput, urlInput)) == Some(Trim(nameInput))
  {
    FamilyOfGoogleUrl(Trim(nameInput));
  }

  /** A non-blank URL field is used as it is, apart from surrounding white space. */
  lemma GivenUrlKept(nameInput: string, urlInput: string)
    requires !IsBlank(urlInput)
    ensures StylesheetUrl(nameInput, urlInput) == Trim(urlInput)
    ensures !IsBlank(StylesheetUrl(nameInput, urlInput))
  {
    assert StylesheetUrl(nameInput, urlInput) == Trim(urlInput);
    TrimIdempotent(urlInput);
  }

  /** After an addition the blank-search picker ends with a "Custom Fonts"
      category listing every custom font, the new one last. */
  lemma AddedFontListed(p: Picker, search: string, lower: string -> string)
    requires !IsBlank(p.nameInput) && IsBlank(search)
    ensures var q := AddCustomFont(p);
            var cats := FilteredCategories(search, q.custom, lower);
            && cats[|cats| - 1] == Category("Custom Fonts", q.custom)
            && q.custom[|q.custom| - 1] == q.selected
  {
    var q := AddCustomFont(p);
    BlankSearch(search, q.custom, lower);
  }
}
