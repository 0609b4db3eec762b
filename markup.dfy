/**
 * The markup engines and their registry (`Markup::Markup` and its four
 * subclasses). Each engine class registers itself under an id; the
 * application looks the configured id up, instantiates the class it finds,
 * and falls back to the `text` engine when the initializer throws `:revert`
 * because the library behind the engine cannot be loaded.
 *
 * Which libraries can be loaded and the HTML conversions they perform are
 * inputs of the model (`Libraries`).
 */
module Markup {
  import opened Wrappers

  /** The engine classes: the base class and its four subclasses. */
  datatype Kind = Base | Text | Markdown | Textile | RDoc

  /** A foreign library: whether it can be loaded, and its HTML conversion. */
  datatype Backend = Backend(available: bool, toHtml: string -> string)

  /**
   * The libraries behind the three foreign engines. `markdown.available`
   * stands for "one of RDiscount, peg-markdown, Maruku or BlueCloth loads".
   */
  datatype Libraries = Libraries(markdown: Backend, textile: Backend, rdoc: Backend)

  /** The class-level description and link that `type` records. */
  datatype Info = Info(description: string, link: Option<string>)

  /** Whether the initializer of `k` completes; `false` means it throws `:revert`. */
  predicate Initializes(k: Kind, libs: Libraries)
  {
    match k
    case Base => true
    case Text => true
    case Markdown => libs.markdown.available
    case Textile => libs.textile.available
    case RDoc => libs.rdoc.available
  }

  const SPAN_OPEN: string := "<span style='white-space:pre'>"
  const SPAN_CLOSE: string := "</span>"

  /** `format` of an instance of `k`. */
  function Format(k: Kind, libs: Libraries, text: string): string
  {
    match k
    case Base => text
    case Text => SPAN_OPEN + text + SPAN_CLOSE
    case Markdown => libs.markdown.toHtml(text)
    case Textile => libs.textile.toHtml(text)
    case RDoc => libs.rdoc.toHtml(text)
  }

  /** The base class hands its input back untouched. */
  lemma BaseFormatIsIdentity(libs: Libraries, text: string)
    ensures Format(Base, libs, text) == text
  {
  }

  /**
   * The text engine wraps its input, unchanged, between a whitespace-preserving
   * span's opening and closing tags.
   */
  lemma TextFormatWraps(libs: Libraries, text: string)
    ensures var r := Format(Text, libs, text);
      && |r| == |SPAN_OPEN| + |text| + |SPAN_CLOSE|
      && r[..|SPAN_OPEN|] == SPAN_OPEN
      && r[|SPAN_OPEN|..|SPAN_OPEN| + |text|] == text
      && r[|SPAN_OPEN| + |text|..] == SPAN_CLOSE
  {
    var r := Format(Text, libs, text);
    assert r == SPAN_OPEN + text + SPAN_CLOSE;
  }

  /** The registry after the four engine classes have registered themselves. */
  function Standard(): map<string, Kind>
  {
    map["text" := Text, "markdown" := Markdown, "textile" := Textile, "rdoc" := RDoc]
  }

  /** The shared table of engines, `@@markups`, with the class-level `type` data. */
  class Registry {
    var entries: map<string, Kind>
    var info: map<Kind, Info>

    /** The table before any class has registered. */
    constructor ()
      ensures entries == map[] && info == map[]
    {
      entries := map[];
      info := map[];
    }

    /** The table once the definitions of the four engine classes have run. */
    constructor Builtin()
      ensures entries == Standard()
      ensures info == map[
        Text := Info("Simple text", None),
        Markdown := Info("Markdown", Some("http://daringfireball.net/projects/markdown/")),
        Textile := Info("Textile", Some("http://textism.com/tools/textile/")),
        RDoc := Info("RDoc", Some("http://rdoc.sourceforge.net/doc/index.html"))]
    {
      entries := map[];
      info := map[];
      new;
      Type("text", Text, "Simple text", None);
      Type("markdown", Markdown, "Markdown", Some("http://daringfireball.net/projects/markdown/"));
      Type("textile", Textile, "Textile", Some("http://textism.com/tools/textile/"));
      Type("rdoc", RDoc, "RDoc", Some("http://rdoc.sourceforge.net/doc/index.html"));
    }

    /** `type`: register class `k` under `id` and record its description and link. */
    method Type(id: string, k: Kind, description: string, link: Option<string>)
      modifies this
      ensures entries == old(entries)[id := k]
      ensures info == old(info)[k := Info(description, link)]
    {
      entries := entries[id := k];
      info := info[k := Info(description, link)];
    }

    /** `Markup[id]`: the class registered under `id`, or nil. */
    function Get(id: string): (r: Option<Kind>)
      reads this
      ensures r.Some? <==> id in entries
      ensures r.Some? ==> r.value == entries[id]
    {
      if id in entries then Some(entries[id]) else None
    }
  }

  /** Why engine selection raises instead of choosing an engine. */
  datatype Error =
    | NoSuchMarkup(id: string)   // `nil.new`: nothing is registered under the id
    | UncaughtRevert             // the fallback engine threw `:revert` outside the catch

  /** What `set_markup` ends with: an active engine, or an exception. */
  datatype Selection = Chosen(engine: Kind, reverted: bool) | Failed(error: Error)

  /**
   * `set_markup` on the table `entries` with configured id `id`: the
   * registered class if its initializer completes, otherwise the class
   * registered under `text`.
   */
  function Select(entries: map<string, Kind>, id: string, libs: Libraries): (r: Selection)
    ensures r.Chosen? ==> Initializes(r.engine, libs)
  {
    if id !in entries then Failed(NoSuchMarkup(id))
    else if Initializes(entries[id], libs) then Chosen(entries[id], false)
    else if "text" !in entries then Failed(NoSuchMarkup("text"))
    else if Initializes(entries["text"], libs) then Chosen(entries["text"], true)
    else Failed(UncaughtRevert)
  }

  /** A registered class whose initializer completes becomes the active engine. */
  lemma SelectRegistered(entries: map<string, Kind>, id: string, libs: Libraries)
    requires id in entries && Initializes(entries[id], libs)
    ensures Select(entries, id, libs) == Chosen(entries[id], false)
  {
  }

  /** An id nothing is registered under is not caught by the fallback. */
  lemma SelectUnregistered(entries: map<string, Kind>, id: string, libs: Libraries)
    requires id !in entries
    ensures Select(entries, id, libs) == Failed(NoSuchMarkup(id))
  {
  }

  /**
   * With the built-in table, an engine whose library is missing leaves the
   * text engine active, and that engine wraps its input unchanged.
   */
  lemma SelectFallsBackToText(id: string, libs: Libraries, text: string)
    requires id in Standard() && !Initializes(Standard()[id], libs)
    ensures Select(Standard(), id, libs) == Chosen(Text, true)
    ensures Format(Select(Standard(), id, libs).engine, libs, text) == SPAN_OPEN + text + SPAN_CLOSE
  {
  }

  /** With the built-in table every registered id yields an engine: none raises. */
  lemma StandardNeverFails(id: string, libs: Libraries)
    requires id in Standard()
    ensures Select(Standard(), id, libs).Chosen?
    ensures var r := Select(Standard(), id, libs);
      r.engine == (if r.reverted then Text else Standard()[id])
  {
  }
}
