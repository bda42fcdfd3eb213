/** Which upstream API families the handlers resolve with the beta flag set.
    Every handler of a family passes the same hard-coded flag. */
module ApiFamilies {
  import opened Wrappers
  import opened Headers
  import opened Credentials

  datatype ApiFamily =
    | Completions | Embeddings | Models | Images | Files | Responses
    | Assistants | Threads | Messages | Runs
  {
    /** The stateful-conversation families of the upstream API. */
    predicate IsConversation() {
      Assistants? || Threads? || Messages? || Runs?
    }
  }

  /** The `use_beta` argument each family's handlers pass to the resolver. */
  function UsesBeta(family: ApiFamily): (b: bool)
    ensures b <==> family.IsConversation()
  {
    match family
    case Assistants => true
    case Threads => true
    case Messages => true
    case Runs => true
    case Completions => false
    case Embeddings => false
    case Models => false
    case Images => false
    case Files => false
    case Responses => false
  }

  /** A handler of a conversation family sends `OpenAI-Beta: assistants=v2`
      whenever its credential resolves. */
  lemma ConversationFamiliesSendBeta(headers: HeaderMap, family: ApiFamily)
    requires family.IsConversation()
    ensures Resolve(headers, UsesBeta(family)).Success? ==>
      Resolve(headers, UsesBeta(family)).value.extraHeaders == [BetaHeader]
  {
  }

  /** Every other family's handlers send no extra header at all. */
  lemma OtherFamiliesSendNoBeta(headers: HeaderMap, family: ApiFamily)
    requires !family.IsConversation()
    ensures Resolve(headers, UsesBeta(family)).Success? ==>
      Resolve(headers, UsesBeta(family)).value.extraHeaders == []
  {
  }
}
