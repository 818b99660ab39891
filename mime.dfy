/** `mimeForExtension`: the caller's overrides, then a built-in table, then
    the system type database (UTType), then `application/octet-stream`. The
    system database is a parameter: any function from an extension to an
    optional MIME type. */
module Mime {
  import opened Wrappers
  import opened Text

  const OctetStream := "application/octet-stream"

  /** The built-in table, for types the system database may get wrong. */
  const BuiltInOverrides: map<string, string> := map["css" := "text/css"]

  function Lookup(table: Option<map<string, string>>, key: string): Option<string>
  {
    if table.Some? && key in table.value then Some(table.value[key]) else None
  }

  /** The first answer found, in order of preference. */
  function FirstFound(answers: seq<Option<string>>): Option<string>
  {
    if answers == [] then None
    else if answers[0].Some? then answers[0]
    else FirstFound(answers[1..])
  }

  lemma FirstFoundOfThree(a: Option<string>, b: Option<string>, c: Option<string>)
    ensures FirstFound([a, b, c]) == if a.Some? then a else if b.Some? then b else c
  {
    assert [c][1..] == [];
    assert FirstFound([c]) == c;
    assert [b, c][1..] == [c];
    assert FirstFound([b, c]) == if b.Some? then b else c;
    assert [a, b, c][1..] == [b, c];
  }

  /** Specification: the most preferred source that knows the lower-cased
      extension decides; an empty extension or no answer gives the default. */
  function PreferredMimeType(ext: string, overrides: Option<map<string, string>>,
                             system: string -> Option<string>): string
  {
    var e := Lower(ext);
    if e == [] then OctetStream
    else FirstFound([Lookup(overrides, e), Lookup(Some(BuiltInOverrides), e), system(e)]).GetOr(OctetStream)
  }

  method MimeForExtension(ext: string, overrides: Option<map<string, string>>,
                          system: string -> Option<string>) returns (mime: string)
    ensures mime == PreferredMimeType(ext, overrides, system)
    ensures ext == [] ==> mime == OctetStream
    ensures var e := Lower(ext);
      && (e != [] && overrides.Some? && e in overrides.value ==> mime == overrides.value[e])
      && (e != [] && Lookup(overrides, e).None? && e in BuiltInOverrides ==> mime == BuiltInOverrides[e])
      && (e != [] && Lookup(overrides, e).None? && e !in BuiltInOverrides && system(e).Some? ==>
            mime == system(e).value)
      && (e != [] && Lookup(overrides, e).None? && e !in BuiltInOverrides && system(e).None? ==>
            mime == OctetStream)
  {
    var mimeType: Option<string> := None;
    var normalizedExt := Lower(ext);
    if |normalizedExt| > 0 {
      mimeType := Lookup(overrides, normalizedExt);
      if mimeType.None? {
        mimeType := Lookup(Some(BuiltInOverrides), normalizedExt);
      }
      if mimeType.None? {
        // UTTypeCreatePreferredIdentifierForTag, then UTTypeCopyPreferredTagWithClass
        mimeType := system(normalizedExt);
      }
    }
    mime := if mimeType.Some? then mimeType.value else OctetStream;
    FirstFoundOfThree(Lookup(overrides, normalizedExt), Lookup(Some(BuiltInOverrides), normalizedExt),
                      system(normalizedExt));
  }

  /** The built-in table fixes `css`, whatever the system database says, unless
      the caller overrides it. */
  lemma CssIsTextCss(overrides: Option<map<string, string>>, system: string -> Option<string>)
    requires Lookup(overrides, "css").None?
    ensures PreferredMimeType("css", overrides, system) == "text/css"
    ensures PreferredMimeType("CSS", overrides, system) == "text/css"
  {
    assert Lower("css") == "css";
    assert Lower("CSS") == "css";
    FirstFoundOfThree(Lookup(overrides, "css"), Lookup(Some(BuiltInOverrides), "css"), system("css"));
  }
}
