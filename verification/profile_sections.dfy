/** The update and destroy actions of the profile-sections controller
    (app/controllers/profile_sections_controller.rb), as pure functions
    over the store of profile sections, keyed by public (external) id.

    Lookups are scoped to the current seller: a section that exists but
    belongs to someone else is "not found". The content processor that
    extracts upsells and the persistence layer's `update` (with its model
    validation) are outside this component and are passed in as function
    parameters. */
module ProfileSections {
  import opened Wrappers
  import opened IframeAllowlist

  type SellerId = nat
  type ExternalId = string

  /** The section subtypes; only rich-text sections get the iframe check. */
  datatype SectionKind = RichText | Products | Posts | Wishlists | FeaturedProduct

  /** A stored section: its owner, its subtype, its rich-text content
      (`json_data["text"]["content"]`, possibly nil) and every other field
      of its payload, which this component never inspects. */
  datatype Section = Section(seller: SellerId, kind: SectionKind, content: Option<Content>,
                             fields: map<string, string>)

  /** The permitted request attributes other than `text` and
      `shown_posts`, keyed by name; the two named ones have fields of
      their own in `Attributes`, so they cannot hide here. */
  type OtherAttributes = m: map<string, string> | "text" !in m && "shown_posts" !in m

  /** The permitted (already decrypted) request attributes: the new
      rich-text content, if present; the client-supplied shown posts, if
      any; and every other permitted attribute, opaque here. */
  datatype Attributes = Attributes(text: Option<Content>, shownPosts: Option<seq<nat>>,
                                   others: OtherAttributes)

  type Store = map<ExternalId, Section>

  /** What the action answers: the change was applied (204 No Content);
      the iframe check intercepted the update (`head :ok`, nothing
      changed); the id is not one of the seller's sections (404); or the
      persistence layer refused the attributes (422 with its message). */
  datatype Response = Applied | Intercepted | NotFound | Unprocessable(error: string)

  /** A store after an action, with the action's response. */
  datatype Step = Step(store: Store, response: Response)

  /** `process_text(content, old_content)`: the upsell extraction service. */
  type Processor = (Content, Content) -> Content

  /** `section.update(attributes)`: the updated section, or the model's
      validation errors joined into one sentence. */
  type Saver = (Section, Attributes) -> Result<Section, string>

  /** `find_by_external_id!` scoped to the current seller: the reference
      lookup the actions' contracts are stated against. */
  function Find(store: Store, seller: SellerId, id: ExternalId): Option<Section> {
    if id in store && store[id].seller == seller then Some(store[id]) else None
  }

  /** Does the new content of an update reach the iframe check, and fail
      it? Exactly when the section is rich text and the new content holds
      a node that fails the check. */
  predicate Intercepts(section: Section, attrs: Attributes): (b: bool)
    ensures b <==> section.kind == RichText && attrs.text.Some?
                   && exists i :: 0 <= i < |attrs.text.value| && !NodePasses(attrs.text.value[i])
  {
    attrs.text.Some? && section.kind == RichText && !ValidateIframeSrc(attrs.text.value)
  }

  /** A persistence layer that never moves a section to another owner:
      the owner is not among the attributes a seller may send. */
  ghost predicate KeepsOwner(save: Saver) {
    forall s, a :: save(s, a).Success? ==> save(s, a).value.seller == s.seller
  }

  /** Hands the final attributes to the persistence layer. */
  function Persist(store: Store, id: ExternalId, section: Section, attrs: Attributes, save: Saver): (r: Step)
    requires id in store
    ensures r.store.Keys == store.Keys
    ensures forall k :: k in store && k != id ==> r.store[k] == store[k]
    ensures r.response.Applied? <==> save(section, attrs).Success?
    ensures r.response.Applied? ==> r.store[id] == save(section, attrs).value
    ensures r.response.Unprocessable? <==> save(section, attrs).Failure?
    ensures r.response.Unprocessable? ==> r.store == store && r.response.error == save(section, attrs).error
  {
    match save(section, attrs)
    case Success(updated) => Step(store[id := updated], Applied)
    case Failure(message) => Step(store, Unprocessable(message))
  }

  /** The update action. */
  function Update(store: Store, seller: SellerId, id: ExternalId, attrs: Attributes,
                  process: Processor, save: Saver): (r: Step)
    ensures Find(store, seller, id).None? ==> r == Step(store, NotFound)
    ensures r.store.Keys == store.Keys
    ensures forall k :: k in store && k != id ==> r.store[k] == store[k]
    ensures !r.response.Applied? ==> r.store == store
    ensures r.response.Intercepted? <==> Find(store, seller, id).Some? && Intercepts(store[id], attrs)
    ensures r.response.Applied? && attrs.text.Some? && store[id].kind == RichText ==>
              ValidateIframeSrc(attrs.text.value)
    // an update that is found and not intercepted hands the save the
    // request's attributes without shown posts, with rich text processed
    // against the stored content; the save's outcome is the answer
    ensures Find(store, seller, id).Some? && !Intercepts(store[id], attrs) ==>
              var section := store[id];
              var text := if attrs.text.Some? && section.kind == RichText
                          then Some(process(attrs.text.value, section.content.GetOr([])))
                          else attrs.text;
              var saved := save(section, Attributes(text, None, attrs.others));
              && (saved.Success? ==> r == Step(store[id := saved.value], Applied))
              && (saved.Failure? ==> r == Step(store, Unprocessable(saved.error)))
  {
    match Find(store, seller, id)
    case None => Step(store, NotFound)
    case Some(section) =>
      // shown posts are computed by the server, never taken from the client
      var stripped := attrs.(shownPosts := None);
      if stripped.text.Some? && section.kind == RichText then
        if !ValidateIframeSrc(stripped.text.value) then
          Step(store, Intercepted)
        else
          var processed := process(stripped.text.value, section.content.GetOr([]));
          Persist(store, id, section, stripped.(text := Some(processed)), save)
      else
        Persist(store, id, section, stripped, save)
  }

  /** The destroy action. */
  function Destroy(store: Store, seller: SellerId, id: ExternalId): (r: Step)
    ensures Find(store, seller, id).None? ==> r == Step(store, NotFound)
    ensures Find(store, seller, id).Some? ==> r.response == Applied
    ensures Find(store, seller, id).Some? ==> r.store.Keys == store.Keys - {id} && |r.store| == |store| - 1
    ensures forall k :: k in r.store ==> k in store && r.store[k] == store[k]
  {
    if Find(store, seller, id).Some? then Step(store - {id}, Applied) else Step(store, NotFound)
  }

  /** Once decrypted, client-supplied shown posts never matter: any
      decrypted value gives exactly the same update. */
  lemma UpdateIgnoresShownPosts(store: Store, seller: SellerId, id: ExternalId, attrs: Attributes,
                                posts: Option<seq<nat>>, process: Processor, save: Saver)
    ensures Update(store, seller, id, attrs.(shownPosts := posts), process, save)
         == Update(store, seller, id, attrs, process, save)
  {
  }

  /** Once a section is destroyed, both actions answer "not found" for its
      id and change nothing. */
  lemma DestroyedSectionIsGone(store: Store, seller: SellerId, id: ExternalId, attrs: Attributes,
                               process: Processor, save: Saver)
    requires Find(store, seller, id).Some?
    ensures var after := Destroy(store, seller, id).store;
            && Find(after, seller, id).None?
            && Update(after, seller, id, attrs, process, save) == Step(after, NotFound)
            && Destroy(after, seller, id) == Step(after, NotFound)
  {
  }

  /** A request to one of the two actions, as the current seller sends it. */
  datatype Request = UpdateRequest(id: ExternalId, attrs: Attributes) | DestroyRequest(id: ExternalId)

  function Handle(store: Store, seller: SellerId, request: Request, process: Processor, save: Saver): Step {
    match request
    case UpdateRequest(id, attrs) => Update(store, seller, id, attrs, process, save)
    case DestroyRequest(id) => Destroy(store, seller, id)
  }

  /** The store after a seller's requests, handled one after the other. */
  function Replay(store: Store, seller: SellerId, requests: seq<Request>, process: Processor, save: Saver): Store
    decreases |requests|
  {
    if |requests| == 0 then store
    else Replay(Handle(store, seller, requests[0], process, save).store, seller, requests[1..], process, save)
  }

  /** However many requests a seller sends, the sections other sellers
      already had stay exactly as they were. */
  lemma {:induction false} OtherSellersUntouched(store: Store, seller: SellerId, requests: seq<Request>,
                                                 process: Processor, save: Saver, k: ExternalId)
    requires k in store && store[k].seller != seller
    ensures var after := Replay(store, seller, requests, process, save);
            k in after && after[k] == store[k]
    decreases |requests|
  {
    if |requests| > 0 {
      var next := Handle(store, seller, requests[0], process, save).store;
      assert k in next && next[k] == store[k];
      OtherSellersUntouched(next, seller, requests[1..], process, save, k);
    }
  }

  /** One request never gives another seller a section it did not have,
      as long as saving keeps the owner. */
  lemma HandleGivesOthersNothing(store: Store, seller: SellerId, request: Request,
                                 process: Processor, save: Saver, k: ExternalId)
    requires KeepsOwner(save)
    requires var next := Handle(store, seller, request, process, save).store;
             k in next && next[k].seller != seller
    ensures k in store && Handle(store, seller, request, process, save).store[k] == store[k]
  {
  }

  /** However many requests a seller sends, as long as saving keeps the
      owner, every section another seller has afterwards was already
      theirs, unchanged. */
  lemma {:induction false} OthersGainNothing(store: Store, seller: SellerId, requests: seq<Request>,
                                             process: Processor, save: Saver, k: ExternalId)
    requires KeepsOwner(save)
    requires var after := Replay(store, seller, requests, process, save);
             k in after && after[k].seller != seller
    ensures k in store && Replay(store, seller, requests, process, save)[k] == store[k]
    decreases |requests|
  {
    if |requests| > 0 {
      var next := Handle(store, seller, requests[0], process, save).store;
      OthersGainNothing(next, seller, requests[1..], process, save, k);
      HandleGivesOthersNothing(store, seller, requests[0], process, save, k);
    }
  }
}
