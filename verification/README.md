# Profile sections: iframe allow-list and section updates

A model of the profile-sections controller of a seller's public profile
page, written in Dafny and proved with its verifier. Sellers arrange their
profile in sections (rich text, product lists, post lists, wishlists, a
featured product). The controller updates and destroys these sections.
Before it accepts new rich-text content, it checks every embedded-HTML
("raw") node. Each such node must hold an iframe whose `src` starts with
the iframely embed prefix `https://cdn.iframe.ly/api/iframe?url=`.

Files:

- `wrappers.dfy`: `Option` (Ruby's nil) and `Result` (the persistence layer's outcome).
- `ruby_string.dfy`: Ruby's `lstrip`, `rstrip`, `strip` and `start_with?`.
  Whitespace is Ruby's ASCII set: NUL, tab, line feed, vertical tab, form feed, carriage return and space.
- `iframe_allowlist.dfy`: rich-text nodes and the check `validate_iframe_src!`, as `ValidateIframeSrc`.
- `profile_sections.dfy`: the `update` and `destroy` actions.
  They work on a store that maps a section's public id to the section.

HTML parsing is abstracted away. A node carries the first iframe its HTML
contains, if there is one. An iframe carries its `src` attribute, if there
is one. So `Option<Iframe>` with `Iframe(src: Option<string>)` stands for
the parser's answer. A missing `src` becomes `""` through Ruby's `to_s`.

The model keeps two limits of the code's check, both relevant to an
allow-list meant to stop third-party embeds:

- Only the first iframe of a raw node is inspected (`.at("iframe")`, line 43).
  A raw node whose first iframe is allowed passes, even if a foreign iframe follows it in the same HTML.
- Only the top-level nodes of the content are visited (`content.each`, line 40).
  Raw HTML nested inside another node's children is never looked at.

The content processor (`process_text`) and the persistence layer's
`section.update` are outside calls. `Update` takes them as function
parameters (`Processor`, `Saver`). A `Saver` either returns the updated
section or the model's validation message.

Two behaviours of the code are kept as written:

- When the iframe check fails on an update, the action answers `head :ok`
  and changes nothing (`Intercepted`). The client gets no error.
- The `create` action does not run the iframe check. It is not part of
  this model (see below).

## Model

| member | source | states |
|---|---|---|
| IframeAllowlist.SrcAllowed | app/controllers/profile_sections_controller.rb:46-49 | a `src` passes the `to_s.strip.start_with?` test only if it is present and at least as long as the prefix |
| IframeAllowlist.NodePasses | app/controllers/profile_sections_controller.rb:41-49 | defines what one node must satisfy (non-raw skipped, raw needs an allowed iframe `src`); no contract of its own, it is the reference the contracts of `ValidateIframeSrc` and `Intercepts` use |
| IframeAllowlist.RawNodePassesIff | app/controllers/profile_sections_controller.rb:43-49 | a raw node passes exactly when its HTML has an iframe whose `src` is present and, after its leading whitespace, begins with the prefix |
| IframeAllowlist.ValidateIframeSrc | app/controllers/profile_sections_controller.rb:39-52 | the check, walking the nodes in order and returning false at the first failure, holds exactly when every node passes: non-raw nodes pass, raw nodes need an iframe whose stripped `src` starts with the prefix |
| IframeAllowlist.NoRawNodesPasses | app/controllers/profile_sections_controller.rb:40-51 | empty content, and content with no "raw" node, always passes |
| IframeAllowlist.NonRawNodeIrrelevant | app/controllers/profile_sections_controller.rb:41 | inserting a non-raw node anywhere, whatever its attributes, never changes the result |
| IframeAllowlist.FailingNodeFails | app/controllers/profile_sections_controller.rb:40-51 | one failing node anywhere in the list makes the whole content fail |
| IframeAllowlist.RawNodeWithoutAllowedIframeFails | app/controllers/profile_sections_controller.rb:43-46 | a raw node with no iframe, or whose iframe has no `src`, makes the whole content fail |
| IframeAllowlist.ConcatValidates | app/controllers/profile_sections_controller.rb:40-51 | two lists concatenated pass exactly when each list passes |
| IframeAllowlist.SrcAllowedIff | app/controllers/profile_sections_controller.rb:46-49 | a `src` is allowed exactly when it is present and begins with the prefix after its leading whitespace; trailing whitespace never matters |
| IframeAllowlist.PaddedPrefixAllowed | app/controllers/profile_sections_controller.rb:46-49 | any `src` made of whitespace, then the prefix, then anything, is allowed |
| IframeAllowlist.MissingSrcRejected | app/controllers/profile_sections_controller.rb:46-49 | a missing `src` (turned into "") and an empty `src` are refused |
| IframeAllowlist.MismatchRejected | app/controllers/profile_sections_controller.rb:46-49 | a `src` that begins with a non-whitespace character and differs from the prefix at some position within it is refused |
| IframeAllowlist.ForeignSrcExamples | app/controllers/profile_sections_controller.rb:47-49 | `http://` instead of `https://`, upper-case `HTTPS://`, and another host are refused: the comparison is exact and case-sensitive |
| IframeAllowlist.AllowedEmbedExample | app/controllers/profile_sections_controller.rb:39-52 | a single raw node embedding `https://cdn.iframe.ly/api/iframe?url=X` passes |
| IframeAllowlist.PaddedEmbedBehindOtherNode | app/controllers/profile_sections_controller.rb:40-49 | a non-raw node followed by a raw node with a whitespace-padded allowed `src` passes |
| RubyString.StartsWith | app/controllers/profile_sections_controller.rb:47-49 | `start_with?`: the string is the prefix followed by the rest of the string |
| RubyString.Strip | app/controllers/profile_sections_controller.rb:46 | `strip`: the result has no whitespace at either end |
| RubyString.StripIsSlice | app/controllers/profile_sections_controller.rb:46 | the result of `strip` is the slice of the input that starts where the leading whitespace ends |
| RubyString.StripRemovesOnlyWhitespace | app/controllers/profile_sections_controller.rb:46 | everything `strip` removes, on either side of that slice, is whitespace |
| RubyString.StripLeading | app/controllers/profile_sections_controller.rb:46 | left half of `strip`: the result is a suffix of the input, everything removed is whitespace, and the result does not begin with whitespace |
| RubyString.StripTrailing | app/controllers/profile_sections_controller.rb:46 | right half of `strip`: the result is a prefix of the input, everything removed is whitespace, and the result does not end with whitespace |
| RubyString.StripLeadingPadded | app/controllers/profile_sections_controller.rb:46 | leading whitespace in front of a string that starts with non-whitespace is exactly what `lstrip` removes |
| RubyString.StripTrailingPadded | app/controllers/profile_sections_controller.rb:46 | trailing whitespace after a string that ends with non-whitespace is exactly what `rstrip` removes |
| RubyString.StripUndoesPadding | app/controllers/profile_sections_controller.rb:46 | `strip` undoes padding: whitespace on both sides of a string with no whitespace at its ends is removed, giving the string back |
| RubyString.StripIdempotent | app/controllers/profile_sections_controller.rb:46 | stripping twice is the same as stripping once |
| RubyString.StartsWithSurvivesStripTrailing | app/controllers/profile_sections_controller.rb:46-49 | for a prefix ending in non-whitespace, a string starts with it exactly when its right-stripped form does |
| ProfileSections.Find | app/controllers/profile_sections_controller.rb:21 | defines the seller-scoped `find_by_external_id!`; no contract of its own, it is the reference the contracts of `Update` and `Destroy` use |
| ProfileSections.Intercepts | app/controllers/profile_sections_controller.rb:24-27 | an update is intercepted exactly when the section is rich text, new text is present, and some node of that text fails the check |
| ProfileSections.Persist | app/controllers/profile_sections_controller.rb:33-35 | a successful save stores the saved section at that id and answers applied; a failed save answers with the save's message and leaves the store as it was; other ids are never touched |
| ProfileSections.Update | app/controllers/profile_sections_controller.rb:20-36 | an id that is not the seller's gives not-found and no change; only the updated id can change; nothing changes unless the update is applied; the update is intercepted exactly when a rich-text section gets new text that fails the check; an applied update of a rich-text section's text means that text passed the check; a found update that is not intercepted hands the save the request's attributes with shown posts removed and, for rich text, the new text processed against the stored content (or the empty list), and the save's outcome decides the store and the answer |
| ProfileSections.UpdateIgnoresShownPosts | app/controllers/profile_sections_controller.rb:22-23 | any decrypted shown-posts value gives exactly the same update |
| ProfileSections.Destroy | app/controllers/profile_sections_controller.rb:54-56 | an id that is not the seller's gives not-found and no change; otherwise exactly that id is removed and every other entry is kept unchanged |
| ProfileSections.DestroyedSectionIsGone | app/controllers/profile_sections_controller.rb:54-56 | after a destroy, looking up, updating or destroying the same id is not-found and changes nothing |
| ProfileSections.OtherSellersUntouched | app/controllers/profile_sections_controller.rb:20-56 | any sequence of one seller's update and destroy requests leaves the sections other sellers already had exactly as they were |
| ProfileSections.HandleGivesOthersNothing | app/controllers/profile_sections_controller.rb:20-56 | when saving keeps a section's owner, one request never gives another seller a section: any section another seller has afterwards was theirs before, unchanged |
| ProfileSections.OthersGainNothing | app/controllers/profile_sections_controller.rb:20-56 | when saving keeps a section's owner, after any sequence of one seller's requests every section another seller has was already theirs, unchanged |

## Left out

- `create` (lines 6-18): persistence, `SubclassNotFound` handling and the content processor, with no check of its own. It is not part of this model.
- HTML parsing (line 43): the parser's answer is an input field of each node.
- `process_text` (lines 59-65): the upsell service is the `Processor` parameter.
- `section.update`, model validation and `errors.full_messages.to_sentence` (lines 33-34): the persistence layer is the `Saver` parameter.
- `permitted_params` (lines 75-83): attribute whitelisting and id decryption happen before the model. `Attributes` holds the permitted, decrypted values.
- ProfileSections.OthersGainNothing: assumes the save never changes a section's owner (`KeepsOwner`). The owner is not among the attributes the policy permits, but that policy is not part of this model. Without the assumption, only `OtherSellersUntouched` holds.
- `Attributes.others` cannot carry a `text` or `shown_posts` key (its type excludes them). Those two attributes have fields of their own.
- ProfileSections.UpdateIgnoresShownPosts: covers decrypted values only. `permitted_params` decrypts every client shown-posts token (line 78) before line 23 discards them. A token the codec rejects raises and aborts the whole update.
- IframeAllowlist.ValidateIframeSrc: content elements are always well-formed nodes here. In Ruby, a content element that is not a hash raises at line 41 (`node[:type]` on a string, integer or array). A raw node whose `attrs` is not a hash raises at line 43 (`node.dig(:attrs, :html)`). Either way the update fails instead of being intercepted, unless an earlier node has already failed the check.
- `authorize` and `section_policy` (lines 67-73), JSON rendering and HTTP statuses: only the kind of answer (`Response`) is modelled.
- `destroy!` raising when a callback halts the deletion: this belongs to the persistence layer and is not modelled.
- ProfileSections.Update: `attributes[:text].present?` is modelled as the new content being present. A text hash without a `content` key is not modelled; Ruby would raise on `nil.each`.
- ProfileSections.Update: a rich-text section whose stored `json_data["text"]` is nil is not modelled; Ruby would raise there. A nil stored content does fall back to the empty list, as in the code.
- Encodings: Ruby strings carry an encoding; the model works on characters.
