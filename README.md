# Qwicky wikilink rewriter and engine selection, in Dafny

Qwicky is a small personal wiki served by Sinatra. This project models the
part of `qwicky.rb` with logic of its own:

- the **wikilink rewriter** of `Qwicky#format`, which takes the HTML of the
  active markup engine and replaces every `[[Text]]` or `[[Text|Page]]` token
  by an anchor whose class and title depend on whether the page exists
  (module `Wikilink`, with Ruby's `String#inspect` in module `RubyString`);
- the **markup engine registry** `Markup::Markup` with its `type` and `[]`
  class methods, the base and text engines' `format`, and the initializers
  that throw `:revert` when a library is missing (module `Markup`);
- the **application state** of class `Qwicky`: `conf` (defaults merged with
  the settings file), `markup` (the active engine), `set_markup`, the settings
  update, `format` and the target of `redirect_home` (module `Qwicky`).

The rewriter is a pure function: `Rewrite = Render ∘ Scan`. `Scan` finds the
matches left to right (at each position, either the token written there or one
copied character) and `Render` turns each token into an anchor, so anchors are
never rescanned. The matcher takes the longest run of each part; because each
part excludes the character that ends it, that is exactly the match of the
regular expression. Both are proved against a declarative description:
`Leftmost(s, ps)` says the pieces cover `s` in order, every token is well
formed, and a character is copied only where no token starts; the scan is the
one and only such decomposition.

Page existence is the set of page names. The libraries behind the Markdown,
Textile and RDoc engines are an input (`Markup.Libraries`): whether each one
loads, and its HTML conversion as an uninterpreted function.

Points where the model follows the code rather than the usual reading:

- The first part of a token is the visible text and the part after the bar is
  the target (`page = $3 || $1`, anchor text `$1`): `[[A|B]]` links to `/B`
  and shows `A`. The usual wiki convention `[[Page|Label]]` reads it the other
  way round.
- The href and title are quoted with `String#inspect`, which is not HTML
  escaping, and the visible text is inserted as it is. The attributes are not
  HTML-escaped; the model does what the code does.
- An unregistered engine id is not replaced by the text engine: `nil.new`
  raises, which `catch :revert` does not intercept. The model reports this as
  `Failed(NoSuchMarkup(id))`. Only a `:revert` thrown by an initializer falls
  back to the text engine.

## Model

| member | source | states |
|---|---|---|
| RubyString.Inspect | qwicky.rb:212 | the quoted form starts and ends with `"` and is at least two characters longer than the string |
| RubyString.InspectPlain | qwicky.rb:212 | a string with no `"`, `\`, `#` or control character is only put between double quotes |
| RubyString.Escape | qwicky.rb:212 | the text between the quotes, character by character; stated by InspectPlain and EscapeLength |
| RubyString.EscapeChar | qwicky.rb:212 | backslash before `"`, `\` and an interpolating `#`, named escapes for control characters, `\u00XX` for the others; a plain character is kept (InspectPlain) |
| RubyString.EscapeLength | qwicky.rb:212 | escaping never shortens the text |
| Wikilink.SpanEnd | qwicky.rb:206 | the end of the longest run of characters allowed in a token part from a position (no bar or `]` before the bar, no `]` after it): every character before it is allowed, the one at it is not |
| Wikilink.MatchPrefix | qwicky.rb:206 | whatever the matcher finds at the start is a well-formed token (both parts non-empty, no bar or `]` before the bar, no `]` after it) and the prefix of that length is exactly its spelling |
| Wikilink.MatchPrefixComplete | qwicky.rb:206 | every well-formed token written at the start is the match found, with its full length: no other way to match exists |
| Wikilink.MatchPrefixExact | qwicky.rb:206 | the matcher finds a token if and only if some well-formed token is written at the start |
| Wikilink.TokenUnique | qwicky.rb:206 | two well-formed tokens written at the same position are the same token |
| Wikilink.Scan | qwicky.rb:206 | the matches and copied characters, joined in order, give back the input |
| Wikilink.ScanLeftmost | qwicky.rb:206 | the matches are found left to right without overlap, and a character is copied only where no token starts |
| Wikilink.LeftmostUnique | qwicky.rb:206 | there is exactly one such leftmost decomposition of a text |
| Wikilink.RewriteIsLeftmost | qwicky.rb:205-214 | the output is the leftmost decomposition of the input with each token replaced by its anchor, text between matches copied unchanged and in order |
| Wikilink.RewriteStep | qwicky.rb:206-213 | one step of the substitution: an anchor then the rest after the match, or the first character then the rest |
| Wikilink.RewriteWithoutTokens | qwicky.rb:206 | a text in which no token starts anywhere comes back unchanged |
| Wikilink.RewriteWithoutOpen | qwicky.rb:206 | a text without `[[` comes back unchanged |
| Wikilink.RewriteAfterPlain | qwicky.rb:206 | text without `[` in front of any text is copied unchanged and the rest is rewritten as on its own |
| Wikilink.RewriteBeforePlain | qwicky.rb:206 | text without `[` or `]` after any text is copied unchanged: no token reaches into it |
| Wikilink.Rewrite | qwicky.rb:205-214 | the gsub pass: the matches found by `Scan` replaced by anchors; its contract is stated by RewriteIsLeftmost, RewriteStep and the lemmas below |
| Wikilink.AnchorFor | qwicky.rb:207-211 | the target is the part after the bar if present, else the visible text; class and title follow the target's existence; stated by RewriteBareLink and RewritePipedLink |
| Wikilink.ToHtml | qwicky.rb:212 | the anchor markup with href and title quoted by `inspect` and the visible text as it is; stated by RewriteBareLink and RewritePipedLink |
| Wikilink.EmptyTextNeverMatches | qwicky.rb:206 | `[[]]`, and a token whose part before the bar is empty whatever follows the bar, are not tokens: nothing matches at their start |
| Wikilink.EmptyTextIsCopied | qwicky.rb:206 | `[[]]`, and a token whose part before the bar is empty, produce no anchor and are copied verbatim; for the second the part after the bar must hold no `[`, since `[[` there can start a token of its own |
| Wikilink.EmptyPageNeverMatches | qwicky.rb:206 | a token whose part after the bar is empty is not a token, for every part before the bar made of allowed characters |
| Wikilink.EmptyPageIsCopied | qwicky.rb:206 | a token whose part after the bar is empty produces no anchor and is copied verbatim: no token starts anywhere in it |
| Wikilink.RewriteBareLink | qwicky.rb:207-212 | `[[A]]` becomes an anchor to `/A` showing `A`, class `good` and title `Page A` if page A exists, class `bad` and title `Create page A` if not |
| Wikilink.RewritePipedLink | qwicky.rb:207-212 | a token `A` bar `B` becomes an anchor to `/B` whose class and title are decided by page B, showing `A` |
| Wikilink.FirstBarSplits | qwicky.rb:206-207 | only the first bar splits: in a token `A` bar `B` bar `C` the target is `B`, a bar and `C`, and `A` is shown |
| Markup.BaseFormatIsIdentity | qwicky.rb:71-73 | the base engine returns its input unchanged |
| Markup.TextFormatWraps | qwicky.rb:80-82 | the text engine's output is the input, unchanged, between `<span style='white-space:pre'>` and `</span>` |
| Markup.Format | qwicky.rb:71-173 | the `format` of each engine: identity for the base class, the span for the text engine, the library's conversion for the other three; stated by BaseFormatIsIdentity and TextFormatWraps |
| Markup.Initializes | qwicky.rb:89-169 | the base and text initializers always complete, the other three throw `:revert` exactly when their library cannot be loaded; used by Select and its lemmas |
| Markup.Registry.constructor | qwicky.rb:51 | the table starts empty |
| Markup.Registry.Builtin | qwicky.rb:76-155 | after the four class definitions the table maps `text`, `markdown`, `textile`, `rdoc` to their classes, with their descriptions and links |
| Markup.Registry.Type | qwicky.rb:55-60 | registering sets the id's entry and the class's description and link, and changes no other entry |
| Markup.Registry.Get | qwicky.rb:50-53 | the lookup yields the registered class exactly when the id is registered, nil otherwise |
| Markup.Select | qwicky.rb:196-203 | an engine that selection makes active always has an initializer that completes |
| Markup.SelectRegistered | qwicky.rb:197-199 | a registered class whose initializer completes becomes the active engine, without fallback |
| Markup.SelectUnregistered | qwicky.rb:198 | an unregistered id raises (`nil.new`) and is not caught by the fallback |
| Markup.SelectFallsBackToText | qwicky.rb:196-203 | with the built-in table, an engine whose library is missing leaves the text engine active, which wraps its input unchanged in the span |
| Markup.StandardNeverFails | qwicky.rb:196-203 | with the built-in table every registered id yields an engine: the requested one, or the text engine after a revert |
| Qwicky.Merge | qwicky.rb:184-191 | keys of the overriding map win, every other key keeps its value, no key is lost |
| Qwicky.App.constructor | qwicky.rb:184-191 | the configuration is `{homepage: '', markup: 'text'}` overridden key by key by the settings file; no engine is active yet |
| Qwicky.App.SetMarkup | qwicky.rb:196-203 | the outcome is the selection rule applied to the configured id; the active engine changes only when an engine is chosen |
| Qwicky.App.UpdateSettings | qwicky.rb:251-252 | the submitted keys override, all other keys keep their values, both configuration keys stay present, and the engine is selected again; a submitted homepage decides the home redirect (`/..settings` when empty), otherwise it is unchanged |
| Qwicky.App.Format | qwicky.rb:205-214 | the active engine's output with wikilinks rewritten; with the text engine, the text's wikilinks rewritten inside the unchanged span |
| Qwicky.RewriteInSpan | qwicky.rb:81 | no token crosses the span tags: rewriting the wrapped text rewrites the text and keeps the tags |
| Qwicky.App.HomeTarget | qwicky.rb:221-227 | `/..settings` when the homepage is empty, otherwise `/` followed by the homepage |
| Qwicky.Start | qwicky.rb:181-194 | the configuration is the merged one, the app keeps the given libraries, and the engine is the one the selection rule picks for them; a failed selection is the exception that stops startup |
| Qwicky.Defaults | qwicky.rb:184-187 | `homepage` empty and `markup` `text`; stated by App.constructor and DefaultsSelectText |
| Qwicky.DefaultsSelectText | qwicky.rb:184-193 | with the built-in engines and an empty settings file, the text engine is selected without fallback |

## Left out

- RubyString.Inspect: every character outside ASCII is treated as printable and kept as it is; Ruby escapes the non-printable ones as `\uXXXX`, and Ruby 1.8 escaped bytes in octal. Unicode printability is not modelled.
- The Sinatra routes, redirects and request parameters (qwicky.rb:220-315) are HTTP plumbing; only the target of `redirect_home` is modelled.
- The DataMapper page table and the page create, show, edit, delete and sitemap routes (qwicky.rb:28-37, 283-312) are ORM calls; the rewriter sees the store as the set of existing page names.
- HAML templates, Sass stylesheets, the LICENSE endpoint and the user stylesheet (qwicky.rb:247-278) are rendering and file reads.
- Reading and writing `qwicky.yml` with YAML and `FileUtils.touch` (qwicky.rb:182, 188-190, 253-255) are file I/O: the loaded settings are an input map of strings, and the file is not rewritten by the model. Values of other YAML types, and a file that does not hold a hash, are not modelled.
- The `require` probing of RDiscount, peg-markdown, Maruku, BlueCloth, RedCloth and RDoc and their HTML conversion (qwicky.rb:89-173) are foreign libraries: each engine's availability is one boolean and its conversion an uninterpreted function. The messages the initializers print before reverting are not modelled.
- Command-line parsing and the working-directory check (qwicky.rb:13-25) are process plumbing.
- The `markups` accessor and the instance methods `description` and `link` (qwicky.rb:46-48, 63-69) are plain reads of `Registry.entries` and `Registry.info`.
- A settings form without a `settings` parameter (`merge!(nil)` raises) is not modelled: the submitted settings are always a map.
