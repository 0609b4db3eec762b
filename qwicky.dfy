/**
 * The application object `Qwicky`: its configuration `conf`, the active
 * markup engine `markup`, engine selection, the settings update, the page
 * formatter and the target of the home redirect.
 *
 * The settings file is an input (`loaded` is what it held); the page store
 * is the set of existing page names.
 */
module Qwicky {
  import opened Wrappers
  import Markup
  import Wikilink

  /** Ruby's `Hash#merge`: the keys of `over` win, every other key of `base` stays. */
  function Merge(base: map<string, string>, over: map<string, string>): (m: map<string, string>)
    ensures m.Keys == base.Keys + over.Keys
    ensures forall k :: k in over ==> m[k] == over[k]
    ensures forall k :: k in base && k !in over ==> m[k] == base[k]
  {
    base + over
  }

  /** The built-in configuration. */
  function Defaults(): map<string, string>
  {
    map["homepage" := "", "markup" := "text"]
  }

  class App {
    var conf: map<string, string>
    var markup: Option<Markup.Kind>
    const registry: Markup.Registry
    const libs: Markup.Libraries

    /** Both configuration keys are always present: merges only add or override. */
    ghost predicate Valid()
      reads this
    {
      "homepage" in conf && "markup" in conf
    }

    /** The first half of `initialize`: the defaults overridden by the settings file. */
    constructor (loaded: map<string, string>, registry: Markup.Registry, libs: Markup.Libraries)
      ensures Valid()
      ensures conf == Merge(Defaults(), loaded)
      ensures markup == None
      ensures this.registry == registry && this.libs == libs
    {
      conf := Merge(Defaults(), loaded);
      markup := None;
      this.registry := registry;
      this.libs := libs;
    }

    /**
     * `set_markup`: instantiate the class registered under the configured id;
     * if its initializer throws `:revert`, instantiate the class registered
     * under `text` instead. A missing class raises and leaves `markup` as it was.
     */
    method SetMarkup() returns (outcome: Markup.Selection)
      requires Valid()
      modifies this`markup
      ensures outcome == Markup.Select(registry.entries, conf["markup"], libs)
      ensures markup == if outcome.Chosen? then Some(outcome.engine) else old(markup)
    {
      var requested := registry.Get(conf["markup"]);
      if requested.None? {
        return Markup.Failed(Markup.NoSuchMarkup(conf["markup"]));
      }
      if Markup.Initializes(requested.value, libs) {
        markup := Some(requested.value);
        return Markup.Chosen(requested.value, false);
      }
      var fallback := registry.Get("text");
      if fallback.None? {
        return Markup.Failed(Markup.NoSuchMarkup("text"));
      }
      if !Markup.Initializes(fallback.value, libs) {
        return Markup.Failed(Markup.UncaughtRevert);
      }
      markup := Some(fallback.value);
      return Markup.Chosen(fallback.value, true);
    }

    /**
     * The settings update: merge the submitted keys into `conf`, then select
     * the engine again. Keys that were not submitted keep their values.
     */
    method UpdateSettings(submitted: map<string, string>) returns (outcome: Markup.Selection)
      requires Valid()
      modifies this`conf, this`markup
      ensures Valid()
      ensures conf == Merge(old(conf), submitted)
      ensures outcome == Markup.Select(registry.entries, conf["markup"], libs)
      ensures markup == if outcome.Chosen? then Some(outcome.engine) else old(markup)
      ensures "homepage" in submitted ==>
        HomeTarget() == if submitted["homepage"] == "" then "/..settings" else "/" + submitted["homepage"]
      ensures "homepage" !in submitted ==> HomeTarget() == old(HomeTarget())
    {
      conf := Merge(conf, submitted);
      outcome := SetMarkup();
    }

    /**
     * `format`: the active engine's HTML with its wikilinks rewritten. With
     * the text engine the links inside the text are rewritten and the span
     * around it is left alone.
     */
    function Format(text: string, pages: set<string>): (r: string)
      reads this
      requires markup.Some?
      ensures r == Wikilink.Rewrite(Markup.Format(markup.value, libs, text), pages)
      ensures markup.value == Markup.Text ==>
        r == Markup.SPAN_OPEN + Wikilink.Rewrite(text, pages) + Markup.SPAN_CLOSE
    {
      var html := Markup.Format(markup.value, libs, text);
      assert markup.value == Markup.Text ==>
          Wikilink.Rewrite(html, pages) == Markup.SPAN_OPEN + Wikilink.Rewrite(text, pages) + Markup.SPAN_CLOSE by {
        if markup.value == Markup.Text {
          RewriteInSpan(text, pages);
        }
      }
      Wikilink.Rewrite(html, pages)
    }

    /** `redirect_home`: the settings page while no homepage is set, else the homepage. */
    function HomeTarget(): (r: string)
      reads this
      requires Valid()
      ensures conf["homepage"] == "" ==> r == "/..settings"
      ensures conf["homepage"] != "" ==> r == "/" + conf["homepage"]
    {
      if conf["homepage"] == "" then "/..settings" else "/" + conf["homepage"]
    }
  }

  /**
   * No token crosses the text engine's span tags: the opening tag holds no
   * `[`, the closing tag neither `[` nor `]`. So rewriting the wrapped text
   * rewrites the text and keeps the tags.
   */
  lemma RewriteInSpan(text: string, pages: set<string>)
    ensures Wikilink.Rewrite(Markup.SPAN_OPEN + text + Markup.SPAN_CLOSE, pages)
      == Markup.SPAN_OPEN + Wikilink.Rewrite(text, pages) + Markup.SPAN_CLOSE
  {
    var open, close := Markup.SPAN_OPEN, Markup.SPAN_CLOSE;
    assert forall i :: 0 <= i < |open| ==> open[i] != '[';
    assert forall i :: 0 <= i < |close| ==> close[i] != '[' && close[i] != ']';
    Wikilink.RewriteBeforePlain(open + text, close, pages);
    Wikilink.RewriteAfterPlain(open, text, pages);
  }

  /**
   * `Qwicky.new`: build the configuration from the settings file, then select
   * the engine. A `Failed` outcome is the exception that ends the process.
   */
  method Start(loaded: map<string, string>, registry: Markup.Registry, libs: Markup.Libraries)
    returns (app: App, outcome: Markup.Selection)
    ensures fresh(app) && app.Valid()
    ensures app.conf == Merge(Defaults(), loaded)
    ensures app.registry == registry && app.libs == libs
    ensures outcome == Markup.Select(registry.entries, app.conf["markup"], libs)
    ensures app.markup == if outcome.Chosen? then Some(outcome.engine) else None
  {
    app := new App(loaded, registry, libs);
    outcome := app.SetMarkup();
  }

  /** With the built-in engines and an empty settings file, the text engine is selected. */
  lemma DefaultsSelectText(libs: Markup.Libraries)
    ensures Markup.Select(Markup.Standard(), Merge(Defaults(), map[])["markup"], libs) == Markup.Chosen(Markup.Text, false)
  {
    assert Merge(Defaults(), map[])["markup"] == "text";
  }
}
