/** The page wiring the selector to the handler: "Identify Raga" posts the two
    id lists as they stand, and the card styles the confidence that comes back. */
module Flow {
  import opened Wrappers
  import opened Notes
  import opened Selection
  import opened Route
  import opened Confidence

  /** The request body the page posts for a selector state. */
  function Submit(st: Selector): Request {
    Body(Ids(st.aroha), Ids(st.avaroha))
  }

  /** Lists made of catalog ids survive the prompt text. */
  lemma CatalogListPromptSafe(ids: seq<string>)
    requires forall i :: 0 <= i < |ids| ==> IsCatalogId(ids[i])
    ensures PromptSafe(ids)
  {
    forall i | 0 <= i < |ids|
      ensures |ids[i]| > 0 && ',' !in ids[i] && '\n' !in ids[i]
    {
      CatalogIdPlain(ids[i]);
    }
  }

  /** A posted selection is never refused as missing input, even with an
      empty list, since an array is truthy; with a key the answer comes from
      the model path and is 200 or 500. */
  lemma SubmittedNeverMissing(st: Selector, cfg: Config, reply: Reply,
                              parse: string -> Option<Json>, videos: seq<Link>)
    ensures Handle(Submit(st), cfg, reply, parse, videos) != MissingInput
    ensures !KeyMissing(cfg.apiKey) ==>
      Handle(Submit(st), cfg, reply, parse, videos)
        == Answer(cfg.systemPrompt + "\n\n" + UserPrompt(st.aroha, st.avaroha), reply, parse, videos)
  {
    if !KeyMissing(cfg.apiKey) {
      HandleWithKey(st.aroha, st.avaroha, cfg, reply, parse, videos);
    }
  }

  /** An enabled "Identify Raga" after any clicks posts two non-empty lists of
      catalog ids, aroha strictly ascending and avaroha strictly descending,
      exactly as `handleGuess` passes them on, and the handler never refuses
      them as missing input. */
  lemma EnabledSubmitPosts(actions: seq<Action>, isLoading: bool, cfg: Config, reply: Reply,
                           parse: string -> Option<Json>, videos: seq<Link>)
    requires PressesCatalogKeys(actions)
    requires SubmitEnabled(Run(actions), isLoading)
    ensures var st := Run(actions);
      var (aroha, avaroha) := Guess(st);
      && !isLoading
      && Submit(st) == Body(Ids(aroha), Ids(avaroha))
      && |aroha| > 0 && |avaroha| > 0
      && Canonical(Aroha, aroha) && Canonical(Avaroha, avaroha)
      && (forall i :: 0 <= i < |aroha| ==> IsCatalogId(aroha[i]))
      && (forall i :: 0 <= i < |avaroha| ==> IsCatalogId(avaroha[i]))
      && Handle(Submit(st), cfg, reply, parse, videos) != MissingInput
  {
    var st := Run(actions);
    RunValid(actions);
    SubmittedNeverMissing(st, cfg, reply, parse, videos);
  }

  /** After any clicks on the keyboard, the prompt the handler builds carries
      the two lists exactly as the selector holds them. */
  lemma ClickedPromptRoundTrip(actions: seq<Action>)
    requires PressesCatalogKeys(actions)
    ensures var st := Run(actions);
      ParsePrompt(UserPrompt(st.aroha, st.avaroha)) == Some((st.aroha, st.avaroha))
  {
    var st := Run(actions);
    RunValid(actions);
    CatalogListPromptSafe(st.aroha);
    CatalogListPromptSafe(st.avaroha);
    PromptRoundTrip(st.aroha, st.avaroha);
  }

  /** Without a key, whatever was selected, the card shows the placeholder's
      confidence in the low style. */
  lemma OfflineCardIsLow(st: Selector, cfg: Config, reply: Reply,
                         parse: string -> Option<Json>, videos: seq<Link>)
    requires KeyMissing(cfg.apiKey)
    ensures var r := Handle(Submit(st), cfg, reply, parse, videos);
      && r.Ok? && r.body.JObj? && "confidence" in r.body.fields
      && r.body.fields["confidence"].JStr?
      && Classify(r.body.fields["confidence"].s) == Low
  {
    MockIgnoresEverythingElse(st.aroha, Ids(st.avaroha), cfg, reply, parse, videos);
    MockConfidenceIsLow();
  }
}
