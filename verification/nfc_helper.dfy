/** The NFC helper: adapter-state check, the guard of foreground dispatch,
    the intent dispatcher and its two tag decoders. */
module NfcHelper {
  import opened Wrappers
  import opened NfcPlatform
  import opened TextLines

  const NFC_STATE_UNAVAILABLE: int := 0
  const NFC_STATE_DISABLE: int := 1
  const NFC_STATE_ENABLE: int := 2

  // ---------------------------------------------------------------------------
  // Adapter state and the foreground-dispatch guard

  /** The device's NFC state: no adapter, adapter off, or adapter on. The three
      codes are distinct, so exactly one case holds. */
  function CheckNfcState(adapter: Option<Adapter>): (state: int)
    ensures state == NFC_STATE_UNAVAILABLE || state == NFC_STATE_DISABLE || state == NFC_STATE_ENABLE
    ensures state == NFC_STATE_UNAVAILABLE <==> adapter.None?
    ensures state == NFC_STATE_DISABLE <==> adapter.Some? && !adapter.value.isEnabled
    ensures state == NFC_STATE_ENABLE <==> adapter.Some? && adapter.value.isEnabled
  {
    if adapter.None? then NFC_STATE_UNAVAILABLE
    else if !adapter.value.isEnabled then NFC_STATE_DISABLE
    else NFC_STATE_ENABLE
  }

  /** What enabling or disabling foreground dispatch leaves behind: the
      exception thrown, if any, and whether the activity is registered for
      foreground dispatch afterwards. */
  datatype DispatchCall = DispatchCall(thrown: Option<Exception>, dispatching: bool)

  /** Registers the activity for foreground dispatch; throws when NFC is not
      on, and then registers nothing. */
  function EnableNfcIntent(adapter: Option<Adapter>, dispatching: bool): (r: DispatchCall)
    ensures r.thrown.Some? <==> adapter.None? || !adapter.value.isEnabled
    ensures r.thrown.Some? ==> r.thrown.value.IllegalStateException? && r.dispatching == dispatching
    ensures r.thrown.None? ==> r.dispatching
  {
    if CheckNfcState(adapter) != NFC_STATE_ENABLE then
      DispatchCall(Some(IllegalStateException("NFC un!")), dispatching)
    else
      DispatchCall(None, true)
  }

  /** Unregisters the activity; throws when NFC is not on, and then changes
      nothing. */
  function DisableNfcIntent(adapter: Option<Adapter>, dispatching: bool): (r: DispatchCall)
    ensures r.thrown.Some? <==> adapter.None? || !adapter.value.isEnabled
    ensures r.thrown.Some? ==> r.thrown.value.IllegalStateException? && r.dispatching == dispatching
    ensures r.thrown.None? ==> !r.dispatching
  {
    if CheckNfcState(adapter) != NFC_STATE_ENABLE then
      DispatchCall(Some(IllegalStateException("NFC UNVALUABLE or UNOPEN!")), dispatching)
    else
      DispatchCall(None, false)
  }

  /** Both calls share one guard, and with NFC on, disabling undoes enabling
      and enabling undoes disabling. */
  lemma GuardsAgree(adapter: Option<Adapter>, dispatching: bool)
    ensures EnableNfcIntent(adapter, dispatching).thrown.Some? <==> DisableNfcIntent(adapter, dispatching).thrown.Some?
    ensures CheckNfcState(adapter) == NFC_STATE_ENABLE ==>
              DisableNfcIntent(adapter, EnableNfcIntent(adapter, dispatching).dispatching) == DispatchCall(None, false)
              && EnableNfcIntent(adapter, DisableNfcIntent(adapter, dispatching).dispatching) == DispatchCall(None, true)
    ensures CheckNfcState(adapter) != NFC_STATE_ENABLE ==>
              EnableNfcIntent(adapter, dispatching).dispatching == dispatching
              && DisableNfcIntent(adapter, dispatching).dispatching == dispatching
  {
  }

  // ---------------------------------------------------------------------------
  // Tag decoders

  /** How a call ended: a returned value or an escaping exception. */
  datatype Outcome<T> = Returned(value: T) | Threw(exception: Exception)

  /** A decoder call: how it ended and the connect/close operations it issued. */
  datatype Run<T> = Run(outcome: Outcome<T>, trace: seq<TraceEvent>)

  /** A scoped session on `tech`: exactly one connect, issued first, exactly one
      close, issued last, and nothing on any other technology. */
  predicate OneSession(trace: seq<TraceEvent>, tech: Tech) {
    && |trace| >= 2
    && trace[0] == Connect(tech)
    && trace[|trace| - 1] == Close(tech)
    && multiset(trace)[Connect(tech)] == 1
    && multiset(trace)[Close(tech)] == 1
    && forall e :: e in trace ==> e.tech == tech
  }

  /** `Ndef.get(tag)` on a missing tag dereferences null. With an NDEF
      technology, the message is returned when connect and read succeed, and
      close is issued exactly once whatever happened; a failing connect, read
      or close is caught and never escapes. */
  function GetNdefMessageFromTag(tag: Option<Tag>): (r: Run<Option<NdefMessage>>)
    ensures tag.None? ==> r == Run(Threw(NullPointerException), [])
    ensures tag.Some? && tag.value.ndef.None? ==> r == Run(Returned(None), [])
    ensures tag.Some? && tag.value.ndef.Some? ==> r.outcome.Returned? && OneSession(r.trace, Ndef)
    ensures r.outcome.Returned? && r.outcome.value.Some? <==>
              tag.Some? && tag.value.ndef.Some? && tag.value.ndef.value.connectSucceeds
              && tag.value.ndef.value.read.ReadMessage?
    ensures r.outcome.Returned? && r.outcome.value.Some? ==> r.outcome.value.value == tag.value.ndef.value.read.message
  {
    match tag
    case None => Run(Threw(NullPointerException), [])
    case Some(t) =>
      match t.ndef
      case None => Run(Returned(None), [])
      case Some(ndef) =>
        var message :=
          if !ndef.connectSucceeds then None
          else match ndef.read
            case ReadThrows => None
            case ReadNull => None
            case ReadMessage(m) => Some(m);
        // the `finally` block: close is issued, and its failure is caught
        Run(Returned(message), [Connect(Ndef), Close(Ndef)])
  }

  function SakLine(nfcA: NfcATech, p: Platform): string {
    "nfcA.sak: " + p.renderSak(nfcA.sak)
  }

  function AtqaLine(nfcA: NfcATech, p: Platform): string {
    "nfcA.atqa: " + p.renderAtqa(nfcA.atqa)
  }

  /** Reads SAK and ATQA over NfcA into two line-feed-terminated lines. A
      failing connect is caught and leaves the text empty; close is issued
      exactly once and unguarded, so its failure escapes and the text is lost.
      Without an NfcA technology both connect and close dereference null: the
      first is caught, the second escapes. */
  function ReadNfcATag(tag: Tag, p: Platform): (r: Run<string>)
    ensures tag.nfcA.None? ==> r == Run(Threw(NullPointerException), [])
    ensures tag.nfcA.Some? ==> OneSession(r.trace, NfcA)
    ensures tag.nfcA.Some? ==> (r.outcome.Threw? <==> tag.nfcA.value.closeThrows)
    ensures tag.nfcA.Some? && r.outcome.Threw? ==> r.outcome.exception == IOException
    ensures r.outcome.Returned? ==> (r.outcome.value == "" <==> !tag.nfcA.value.connectSucceeds)
    ensures r.outcome.Returned? && tag.nfcA.value.connectSucceeds ==>
              r.outcome.value == JoinLines([SakLine(tag.nfcA.value, p), AtqaLine(tag.nfcA.value, p)])
  {
    match tag.nfcA
    case None => Run(Threw(NullPointerException), [])
    case Some(nfcA) =>
      var text :=
        if nfcA.connectSucceeds then
          AppendLineJoins([], SakLine(nfcA, p));
          AppendLineJoins([SakLine(nfcA, p)], AtqaLine(nfcA, p));
          AppendLine(AppendLine("", SakLine(nfcA, p)), AtqaLine(nfcA, p))
        else "";
      Run(if nfcA.closeThrows then Threw(IOException) else Returned(text), [Connect(NfcA), Close(NfcA)])
  }

  /** When the renderings hold no line feed, the report splits into exactly the
      SAK line and the ATQA line. */
  lemma NfcAReportLines(tag: Tag, p: Platform)
    requires tag.nfcA.Some? && tag.nfcA.value.connectSucceeds && !tag.nfcA.value.closeThrows
    requires IsLine(p.renderSak(tag.nfcA.value.sak)) && IsLine(p.renderAtqa(tag.nfcA.value.atqa))
    ensures SplitLines(ReadNfcATag(tag, p).outcome.value) == Some([SakLine(tag.nfcA.value, p), AtqaLine(tag.nfcA.value, p)])
  {
    var a := tag.nfcA.value;
    assert IsLine(SakLine(a, p)) by {
      assert SakLine(a, p) == "nfcA.sak: " + p.renderSak(a.sak);
    }
    assert IsLine(AtqaLine(a, p)) by {
      assert AtqaLine(a, p) == "nfcA.atqa: " + p.renderAtqa(a.atqa);
    }
    SplitJoin([SakLine(a, p), AtqaLine(a, p)]);
  }

  // ---------------------------------------------------------------------------
  // The intent dispatcher

  datatype ActionKind = NdefDiscovered | TechDiscovered | TagDiscovered | OtherAction

  /** The `when` over the intent's action string; a null action is none of the three. */
  function KindOf(action: Option<string>): (k: ActionKind)
    ensures k == NdefDiscovered <==> action == Some(ACTION_NDEF_DISCOVERED)
    ensures k == TechDiscovered <==> action == Some(ACTION_TECH_DISCOVERED)
    ensures k == TagDiscovered <==> action == Some(ACTION_TAG_DISCOVERED)
  {
    match action
    case None => OtherAction
    case Some(a) =>
      if a == ACTION_NDEF_DISCOVERED then NdefDiscovered
      else if a == ACTION_TECH_DISCOVERED then TechDiscovered
      else if a == ACTION_TAG_DISCOVERED then TagDiscovered
      else OtherAction
  }

  /** One call of the dispatcher: the strings passed to the callback, the
      connect/close operations issued, and the exception that escaped, if any. */
  datatype Handled = Handled(callbacks: seq<string>, trace: seq<TraceEvent>, thrown: Option<Exception>)

  /** Dispatches on the action alone. The callback runs at most once, never
      when an exception escapes, and never for TAG_DISCOVERED or any other
      action; the NDEF branch only touches NDEF and the TECH branch only NfcA,
      each in at most one scoped session. */
  function HandleNfcIntent(intent: Intent, p: Platform): (h: Handled)
    ensures |h.callbacks| <= 1
    ensures h.thrown.Some? ==> h.callbacks == []
    ensures KindOf(intent.action) == TagDiscovered || KindOf(intent.action) == OtherAction ==> h == Handled([], [], None)
    ensures KindOf(intent.action) == NdefDiscovered ==> forall e :: e in h.trace ==> e.tech == Ndef
    ensures KindOf(intent.action) == TechDiscovered ==> forall e :: e in h.trace ==> e.tech == NfcA
    ensures h.trace == [] || OneSession(h.trace, Ndef) || OneSession(h.trace, NfcA)
  {
    match KindOf(intent.action)
    case NdefDiscovered =>
      var r := GetNdefMessageFromTag(intent.tag);
      (match r.outcome
       case Threw(e) => Handled([], r.trace, Some(e))
       case Returned(message) =>
         if message.Some? && message.value.records.Some? && |message.value.records.value| > 0 then
           Handled([p.decodePayload(message.value.records.value[0].payload)], r.trace, None)
         else
           Handled([], r.trace, None))
    case TechDiscovered =>
      (match intent.tag
       case None => Handled([], [], None)
       case Some(tag) =>
         if TECH_NFC_A in tag.techList then
           var r := ReadNfcATag(tag, p);
           (match r.outcome
            case Threw(e) => Handled([], r.trace, Some(e))
            case Returned(text) => Handled([text], r.trace, None))
         else
           Handled([], [], None))
    case TagDiscovered => Handled([], [], None)
    case OtherAction => Handled([], [], None)
  }

  /** The tag holds an NDEF message with at least one record that can be read. */
  predicate DeliversNdef(tag: Option<Tag>) {
    && tag.Some? && tag.value.ndef.Some?
    && tag.value.ndef.value.connectSucceeds
    && tag.value.ndef.value.read.ReadMessage?
    && tag.value.ndef.value.read.message.records.Some?
    && |tag.value.ndef.value.read.message.records.value| > 0
  }

  /** NDEF branch: the callback runs exactly when a non-empty message is read,
      with the decoded payload of the first record; only a missing tag makes
      the call throw. */
  lemma NdefBranch(intent: Intent, p: Platform)
    requires KindOf(intent.action) == NdefDiscovered
    ensures |HandleNfcIntent(intent, p).callbacks| == 1 <==> DeliversNdef(intent.tag)
    ensures DeliversNdef(intent.tag) ==>
              HandleNfcIntent(intent, p).callbacks == [p.decodePayload(intent.tag.value.ndef.value.read.message.records.value[0].payload)]
    ensures HandleNfcIntent(intent, p).thrown.Some? <==> intent.tag.None?
  {
  }

  /** Records after the first are ignored: appending any records to a
      one-record message does not change what the callback receives. */
  lemma NdefFirstRecordOnly(action: Option<string>, techList: seq<string>, ndef: NdefTech,
                            nfcA: Option<NfcATech>, first: NdefRecord, rest: seq<NdefRecord>, p: Platform)
    ensures var one := ndef.(read := ReadMessage(NdefMessage(Some([first]))));
            var many := ndef.(read := ReadMessage(NdefMessage(Some([first] + rest))));
            HandleNfcIntent(Intent(action, Some(Tag(techList, Some(many), nfcA))), p)
              == HandleNfcIntent(Intent(action, Some(Tag(techList, Some(one), nfcA))), p)
  {
    var one := ndef.(read := ReadMessage(NdefMessage(Some([first]))));
    var many := ndef.(read := ReadMessage(NdefMessage(Some([first] + rest))));
    var tagOne, tagMany := Tag(techList, Some(one), nfcA), Tag(techList, Some(many), nfcA);
    match KindOf(action)
    case NdefDiscovered =>
      var rOne := GetNdefMessageFromTag(Some(tagOne));
      var rMany := GetNdefMessageFromTag(Some(tagMany));
      assert rOne.trace == rMany.trace;
      assert rOne.outcome.Returned? && rMany.outcome.Returned?;
      assert rMany.outcome.value.Some? ==> rMany.outcome.value.value.records.value[0] == first;
    case TechDiscovered =>
      TechIgnoresNdefSide(Intent(action, Some(tagOne)), tagOne, Some(many), p);
    case TagDiscovered =>
    case OtherAction =>
  }

  /** TECH branch: the callback runs exactly when a tag declaring NfcA yields a
      report without the close failing, and it receives the report even when
      it is empty (a failed connect). */
  lemma TechBranch(intent: Intent, p: Platform)
    requires KindOf(intent.action) == TechDiscovered
    ensures |HandleNfcIntent(intent, p).callbacks| == 1 <==>
              intent.tag.Some? && TECH_NFC_A in intent.tag.value.techList
              && intent.tag.value.nfcA.Some? && !intent.tag.value.nfcA.value.closeThrows
    ensures |HandleNfcIntent(intent, p).callbacks| == 1 ==>
              HandleNfcIntent(intent, p).callbacks == [ReadNfcATag(intent.tag.value, p).outcome.value]
    ensures intent.tag.Some? && TECH_NFC_A in intent.tag.value.techList && intent.tag.value.nfcA.Some?
            && !intent.tag.value.nfcA.value.connectSucceeds && !intent.tag.value.nfcA.value.closeThrows
            ==> HandleNfcIntent(intent, p).callbacks == [""]
  {
  }

  /** On a tag whose technology objects match its declared list, the TECH
      branch throws only when closing NfcA fails. */
  lemma TechBranchConsistentTag(intent: Intent, p: Platform)
    requires KindOf(intent.action) == TechDiscovered
    requires intent.tag.Some? && ConsistentTag(intent.tag.value)
    ensures HandleNfcIntent(intent, p).thrown.Some? <==>
              TECH_NFC_A in intent.tag.value.techList && intent.tag.value.nfcA.value.closeThrows
    ensures HandleNfcIntent(intent, p).thrown.Some? ==> HandleNfcIntent(intent, p).thrown.value == IOException
  {
  }

  /** The branch is chosen by the declared action, not by probing the tag: an
      NDEF intent gives the same result whatever the tag's NfcA side and
      technology list, so a tag that would satisfy the TECH branch is still
      read over NDEF only. */
  lemma NdefIgnoresTechSide(intent: Intent, tag: Tag, techList: seq<string>, nfcA: Option<NfcATech>, p: Platform)
    requires KindOf(intent.action) == NdefDiscovered
    ensures HandleNfcIntent(intent.(tag := Some(tag.(techList := techList, nfcA := nfcA))), p)
              == HandleNfcIntent(intent.(tag := Some(tag)), p)
  {
    var other := tag.(techList := techList, nfcA := nfcA);
    assert GetNdefMessageFromTag(Some(other)) == GetNdefMessageFromTag(Some(tag));
  }

  /** Likewise a TECH intent gives the same result whatever the tag's NDEF side. */
  lemma TechIgnoresNdefSide(intent: Intent, tag: Tag, ndef: Option<NdefTech>, p: Platform)
    requires KindOf(intent.action) == TechDiscovered
    ensures HandleNfcIntent(intent.(tag := Some(tag.(ndef := ndef))), p) == HandleNfcIntent(intent.(tag := Some(tag)), p)
  {
    var other := tag.(ndef := ndef);
    assert ReadNfcATag(other, p) == ReadNfcATag(tag, p);
  }

  /** A failing NDEF close is swallowed: whether close fails changes neither
      what the decoder returns nor the operations it issues, and so nothing
      about the dispatcher call. */
  lemma NdefCloseFailureSwallowed(intent: Intent, tag: Tag, ndef: NdefTech, p: Platform)
    ensures GetNdefMessageFromTag(Some(tag.(ndef := Some(ndef.(closeThrows := true)))))
              == GetNdefMessageFromTag(Some(tag.(ndef := Some(ndef.(closeThrows := false)))))
    ensures HandleNfcIntent(intent.(tag := Some(tag.(ndef := Some(ndef.(closeThrows := true))))), p)
              == HandleNfcIntent(intent.(tag := Some(tag.(ndef := Some(ndef.(closeThrows := false))))), p)
  {
    var failing := tag.(ndef := Some(ndef.(closeThrows := true)));
    var closing := tag.(ndef := Some(ndef.(closeThrows := false)));
    assert GetNdefMessageFromTag(Some(failing)) == GetNdefMessageFromTag(Some(closing));
    assert ReadNfcATag(failing, p) == ReadNfcATag(closing, p);
  }
}
