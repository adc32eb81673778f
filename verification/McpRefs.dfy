/** The opaque MCP references: JSON, then UTF-8, then base64url without padding,
    behind a prefix, and the two parsers that read them back. */
module McpRefs {
  import opened Wrappers
  import opened Utf8
  import opened JsonText
  import opened JsonRoundTrip
  import Base64Url
  import Strings

  datatype RefError = BadPrefix | NotBase64Json | NotAnObject | WrongKind | Missing

  const ORG := T("org")
  const WORKFLOW := T("workflow")
  const KIND := T("kind")
  const RUN_ID := T("run_id")
  const MEMBER := T("member")
  const WORKFLOW_PREFIX := T("wf_")
  const RUN_PREFIX := T("run_")

  // ---- builders -------------------------------------------------------------------

  /** The payloads list their members in key order, as sort_keys writes them. */
  function WorkflowPayload(org: Text, workflow: Text): seq<(Text, Text)> {
    [(ORG, org), (WORKFLOW, workflow)]
  }

  function RunPayload(org: Text, runId: Text): seq<(Text, Text)> {
    [(KIND, MEMBER), (ORG, org), (RUN_ID, runId)]
  }

  function EncodePayload(pairs: seq<(Text, Text)>): Text {
    Base64Url.StripPadding(Base64Url.Encode(EncodeAll(Dumps(pairs))))
  }

  function BuildWorkflowRef(org: Text, workflow: Text): Text {
    WORKFLOW_PREFIX + EncodePayload(WorkflowPayload(org, workflow))
  }

  function BuildMemberRunRef(org: Text, runId: Text): Text {
    RUN_PREFIX + EncodePayload(RunPayload(org, runId))
  }

  // ---- parsers ----------------------------------------------------------------------

  function DecodePayload(encoded: Text): Result<seq<(Text, Json)>, RefError> {
    var raw := Base64Url.Decode(encoded + Base64Url.Padding(|encoded|));
    if raw.None? then Err(NotBase64Json)
    else
      var text := Decode(raw.value);
      if text.None? then Err(NotBase64Json)
      else
        var payload := Loads(text.value);
        if payload.Fail? then Err(NotBase64Json)
        else if !payload.value.Object? then Err(NotAnObject)
        else Ok(payload.value.members)
  }

  /** str.strip() */
  function Strip(s: Text): Text {
    RightStrip(LeftStrip(s))
  }

  function LeftStrip(s: Text): (r: Text)
    ensures |r| <= |s| && (|r| == |s| ==> r == s)
    ensures r == s <==> s == [] || !Strings.Whitespace(s[0])
  {
    if s != [] && Strings.Whitespace(s[0]) then LeftStrip(s[1..]) else s
  }

  function RightStrip(s: Text): (r: Text)
    ensures |r| <= |s| && (|r| == |s| ==> r == s)
    ensures r == s <==> s == [] || !Strings.Whitespace(s[|s| - 1])
  {
    if s != [] && Strings.Whitespace(s[|s| - 1]) then RightStrip(s[..|s| - 1]) else s
  }

  /** str(payload.get(key, "")).strip(); render is str() of every other value. */
  function Field(members: seq<(Text, Json)>, key: Text, render: Json -> Text): Text {
    var value := Lookup(members, key, String([]));
    Strip(if value.String? then value.s else render(value))
  }

  function ParseWorkflowRef(s: Text, render: Json -> Text): Result<(Text, Text), RefError> {
    if !StartsWith(s, WORKFLOW_PREFIX) then Err(BadPrefix)
    else
      var payload := DecodePayload(s[|WORKFLOW_PREFIX|..]);
      if payload.Err? then Err(payload.error)
      else
        var org, workflow := Field(payload.value, ORG, render), Field(payload.value, WORKFLOW, render);
        if org == [] || workflow == [] then Err(Missing) else Ok((org, workflow))
  }

  function ParseMemberRunRef(s: Text, render: Json -> Text): Result<(Text, Text), RefError> {
    if !StartsWith(s, RUN_PREFIX) then Err(BadPrefix)
    else
      var payload := DecodePayload(s[|RUN_PREFIX|..]);
      if payload.Err? then Err(payload.error)
      else
        var kind, org, runId := Field(payload.value, KIND, render), Field(payload.value, ORG, render),
            Field(payload.value, RUN_ID, render);
        if kind != MEMBER then Err(WrongKind)
        else if org == [] || runId == [] then Err(Missing)
        else Ok((org, runId))
  }

  // ---- the payload codec --------------------------------------------------------------

  /** Every payload of strings decodes to its members, surrogates joined. */
  lemma PayloadRoundTrip(pairs: seq<(Text, Text)>)
    ensures DecodePayload(EncodePayload(pairs)) == Ok(ReadBack(pairs))
  {
    hide Base64Url.StripPadding, Base64Url.Encode, Base64Url.Decode, Base64Url.Padding;
    hide EncodeAll, Decode, Dumps, Loads, ReadBack;
    var text := Dumps(pairs);
    DumpsIsAscii(pairs);
    AsciiEncodesAsIs(text);
    Base64Url.DecodeOfStripped(EncodeAll(text));
    DecodeOfEncode(text);
    DumpsRoundTrip(pairs);
  }

  lemma PrefixedStarts(prefix: Text, rest: Text)
    ensures StartsWith(prefix + rest, prefix) && (prefix + rest)[|prefix|..] == rest
  {
  }

  lemma KeysReadBack()
    ensures Joined(ORG) == ORG && Joined(WORKFLOW) == WORKFLOW && Joined(KIND) == KIND
    ensures Joined(RUN_ID) == RUN_ID && Joined(MEMBER) == MEMBER && Strip(MEMBER) == MEMBER
    ensures |ORG| == 3 && |WORKFLOW| == 8 && |KIND| == 4 && |RUN_ID| == 6 && |MEMBER| == 6
  {
    hide T, Joined, Strip;
    KeyReadsBack("org");
    KeyReadsBack("workflow");
    KeyReadsBack("kind");
    KeyReadsBack("run_id");
    KeyReadsBack("member");
  }

  lemma KeyReadsBack(key: string)
    requires forall i | 0 <= i < |key| :: '_' <= key[i] <= 'z'
    ensures Joined(T(key)) == T(key) && Strip(T(key)) == T(key)
  {
    hide T, Joined, LeftStrip, RightStrip, Unpaired;
    KeyIsUnpaired(T(key));
    JoinedIsIdentity(T(key));
  }

  lemma KeyIsUnpaired(t: Text)
    requires forall i | 0 <= i < |t| :: t[i] < 128
    ensures Unpaired(t)
  {
  }

  lemma LookupTwo(members: seq<(Text, Json)>, key: Text, default: Json)
    requires |members| == 2
    ensures Lookup(members, key, default)
         == if key == members[1].0 then members[1].1 else if key == members[0].0 then members[0].1 else default
  {
    var front := members[..1];
    assert front[..0] == [];
    assert Lookup(front, key, default) == if key == members[0].0 then members[0].1 else default;
  }

  lemma LookupThree(members: seq<(Text, Json)>, key: Text, default: Json)
    requires |members| == 3
    ensures Lookup(members, key, default)
         == if key == members[2].0 then members[2].1
            else if key == members[1].0 then members[1].1
            else if key == members[0].0 then members[0].1 else default
  {
    LookupTwo(members[..2], key, default);
  }

  lemma ReadBackAt(pairs: seq<(Text, Text)>, i: nat)
    requires i < |pairs|
    ensures ReadBack(pairs)[i] == (Joined(pairs[i].0), String(Joined(pairs[i].1)))
  {
    hide Joined;
    if i > 0 {
      ReadBackAt(pairs[1..], i - 1);
    }
  }

  lemma StripOfEmpty()
    ensures Strip([]) == []
  {
  }

  /** What each parser reads from a workflow payload. */
  lemma WorkflowFields(org: Text, workflow: Text, render: Json -> Text)
    ensures var members := ReadBack(WorkflowPayload(org, workflow));
            && Field(members, ORG, render) == Strip(Joined(org))
            && Field(members, WORKFLOW, render) == Strip(Joined(workflow))
            && Field(members, KIND, render) == []
  {
    hide Joined, Lookup, ReadBack, T, Strip;
    KeysReadBack();
    StripOfEmpty();
    var pairs := WorkflowPayload(org, workflow);
    var members := ReadBack(pairs);
    ReadBackAt(pairs, 0);
    ReadBackAt(pairs, 1);
    LookupTwo(members, ORG, String([]));
    LookupTwo(members, WORKFLOW, String([]));
    LookupTwo(members, KIND, String([]));
  }

  /** What each parser reads from a run payload. */
  lemma RunFields(org: Text, runId: Text, render: Json -> Text)
    ensures var members := ReadBack(RunPayload(org, runId));
            && Field(members, KIND, render) == MEMBER
            && Field(members, ORG, render) == Strip(Joined(org))
            && Field(members, RUN_ID, render) == Strip(Joined(runId))
            && Field(members, WORKFLOW, render) == []
  {
    hide Joined, Lookup, ReadBack, T, Strip;
    KeysReadBack();
    StripOfEmpty();
    var pairs := RunPayload(org, runId);
    var members := ReadBack(pairs);
    ReadBackAt(pairs, 0);
    ReadBackAt(pairs, 1);
    ReadBackAt(pairs, 2);
    LookupThree(members, KIND, String([]));
    LookupThree(members, ORG, String([]));
    LookupThree(members, RUN_ID, String([]));
    LookupThree(members, WORKFLOW, String([]));
  }

  // ---- round trips ----------------------------------------------------------------------

  /** What a reference made from two strings reads back as. */
  function Recovered(a: Text, b: Text): Result<(Text, Text), RefError> {
    var x, y := Strip(Joined(a)), Strip(Joined(b));
    if x == [] || y == [] then Err(Missing) else Ok((x, y))
  }

  /** Nonempty, without surrounding whitespace or an adjacent surrogate pair. */
  predicate Recoverable(s: Text) {
    s != [] && !Strings.Whitespace(s[0]) && !Strings.Whitespace(s[|s| - 1]) && Unpaired(s)
  }

  lemma RecoveredUnchanged(s: Text)
    ensures s != [] && Strip(Joined(s)) == s <==> Recoverable(s)
  {
    hide Joined, Unpaired, LeftStrip, RightStrip;
    JoinedIsIdentity(s);
  }

  lemma RecoveredExactlyWhen(a: Text, b: Text)
    ensures Recovered(a, b) == Ok((a, b)) <==> Recoverable(a) && Recoverable(b)
  {
    hide Recoverable, Strip, Joined;
    RecoveredUnchanged(a);
    RecoveredUnchanged(b);
  }

  /** For all strings: what parsing a built workflow reference returns, and the
      exact strings it returns unchanged. */
  lemma WorkflowRoundTrip(org: Text, workflow: Text, render: Json -> Text)
    ensures ParseWorkflowRef(BuildWorkflowRef(org, workflow), render) == Recovered(org, workflow)
    ensures ParseWorkflowRef(BuildWorkflowRef(org, workflow), render) == Ok((org, workflow))
       <==> Recoverable(org) && Recoverable(workflow)
  {
    hide DecodePayload, EncodePayload, ReadBack, Field, StartsWith, Strip, Joined, Recoverable;
    PrefixedStarts(WORKFLOW_PREFIX, EncodePayload(WorkflowPayload(org, workflow)));
    PayloadRoundTrip(WorkflowPayload(org, workflow));
    WorkflowFields(org, workflow, render);
    RecoveredExactlyWhen(org, workflow);
  }

  lemma MemberRunRoundTrip(org: Text, runId: Text, render: Json -> Text)
    ensures ParseMemberRunRef(BuildMemberRunRef(org, runId), render) == Recovered(org, runId)
    ensures ParseMemberRunRef(BuildMemberRunRef(org, runId), render) == Ok((org, runId))
       <==> Recoverable(org) && Recoverable(runId)
  {
    hide DecodePayload, EncodePayload, ReadBack, Field, StartsWith, Strip, Joined, Recoverable;
    PrefixedStarts(RUN_PREFIX, EncodePayload(RunPayload(org, runId)));
    PayloadRoundTrip(RunPayload(org, runId));
    RunFields(org, runId, render);
    RecoveredExactlyWhen(org, runId);
  }

  // ---- injectivity --------------------------------------------------------------------

  lemma EqualPayloads(p: seq<(Text, Text)>, q: seq<(Text, Text)>)
    requires EncodePayload(p) == EncodePayload(q)
    ensures ReadBack(p) == ReadBack(q)
  {
    hide EncodePayload, DecodePayload, ReadBack;
    PayloadRoundTrip(p);
    PayloadRoundTrip(q);
  }

  lemma SamePayload(p: seq<(Text, Text)>, q: seq<(Text, Text)>)
    requires |p| == |q|
    requires forall i | 0 <= i < |p| :: p[i].0 == q[i].0 && Escape(p[i].1) == Escape(q[i].1)
    ensures p != [] ==> Members(p) == Members(q)
  {
    hide Escape;
    if |p| > 1 {
      SamePayload(p[1..], q[1..]);
    }
  }

  /** Two workflow references are equal exactly when both parts read alike. */
  lemma WorkflowRefsAgree(o: Text, w: Text, p: Text, x: Text)
    ensures BuildWorkflowRef(o, w) == BuildWorkflowRef(p, x) <==> Joined(o) == Joined(p) && Joined(w) == Joined(x)
  {
    hide EncodePayload, Members, Escape, Joined, ReadBack, T;
    var a, b := WorkflowPayload(o, w), WorkflowPayload(p, x);
    EscapeDetermines(o, p);
    EscapeDetermines(w, x);
    if BuildWorkflowRef(o, w) == BuildWorkflowRef(p, x) {
      SamePrefix(WORKFLOW_PREFIX, EncodePayload(a), EncodePayload(b));
      EqualPayloads(a, b);
      ReadBackAt(a, 0);
      ReadBackAt(a, 1);
      ReadBackAt(b, 0);
      ReadBackAt(b, 1);
    } else if Joined(o) == Joined(p) && Joined(w) == Joined(x) {
      SamePayload(a, b);
      SameEncoding(a, b);
      assert false;
    }
  }

  lemma RunRefsAgree(o: Text, r: Text, p: Text, s: Text)
    ensures BuildMemberRunRef(o, r) == BuildMemberRunRef(p, s) <==> Joined(o) == Joined(p) && Joined(r) == Joined(s)
  {
    hide EncodePayload, Members, Escape, Joined, ReadBack, T;
    var a, b := RunPayload(o, r), RunPayload(p, s);
    EscapeDetermines(o, p);
    EscapeDetermines(r, s);
    if BuildMemberRunRef(o, r) == BuildMemberRunRef(p, s) {
      SamePrefix(RUN_PREFIX, EncodePayload(a), EncodePayload(b));
      EqualPayloads(a, b);
      ReadBackAt(a, 1);
      ReadBackAt(a, 2);
      ReadBackAt(b, 1);
      ReadBackAt(b, 2);
    } else if Joined(o) == Joined(p) && Joined(r) == Joined(s) {
      SamePayload(a, b);
      SameEncoding(a, b);
      assert false;
    }
  }

  lemma SamePrefix(prefix: Text, a: Text, b: Text)
    requires prefix + a == prefix + b
    ensures a == b
  {
    assert (prefix + a)[|prefix|..] == a;
    assert (prefix + b)[|prefix|..] == b;
  }

  lemma SameEncoding(p: seq<(Text, Text)>, q: seq<(Text, Text)>)
    requires p != [] && q != [] && Members(p) == Members(q)
    ensures EncodePayload(p) == EncodePayload(q)
  {
    hide Members, EncodeAll, Base64Url.Encode, Base64Url.StripPadding;
  }

  /** On text without adjacent surrogate pairs, so on all valid Unicode, both
      builders are injective. */
  lemma BuildersInjective(a: Text, b: Text, c: Text, d: Text)
    requires Unpaired(a) && Unpaired(b) && Unpaired(c) && Unpaired(d)
    ensures BuildWorkflowRef(a, b) == BuildWorkflowRef(c, d) ==> a == c && b == d
    ensures BuildMemberRunRef(a, b) == BuildMemberRunRef(c, d) ==> a == c && b == d
  {
    hide BuildWorkflowRef, BuildMemberRunRef, Joined, Unpaired;
    JoinedIsIdentity(a);
    JoinedIsIdentity(b);
    JoinedIsIdentity(c);
    JoinedIsIdentity(d);
    WorkflowRefsAgree(a, b, c, d);
    RunRefsAgree(a, b, c, d);
  }

  // ---- the two kinds never mix ---------------------------------------------------------

  /** A reference of one kind is refused by the other parser, even after its
      prefix is swapped for the one that parser wants. */
  lemma KindsNeverMix(a: Text, b: Text, render: Json -> Text)
    ensures ParseWorkflowRef(BuildMemberRunRef(a, b), render) == Err(BadPrefix)
    ensures ParseMemberRunRef(BuildWorkflowRef(a, b), render) == Err(BadPrefix)
    ensures ParseWorkflowRef(WORKFLOW_PREFIX + BuildMemberRunRef(a, b)[|RUN_PREFIX|..], render) == Err(Missing)
    ensures ParseMemberRunRef(RUN_PREFIX + BuildWorkflowRef(a, b)[|WORKFLOW_PREFIX|..], render) == Err(WrongKind)
  {
    hide DecodePayload, EncodePayload, ReadBack, Field, Strip, Joined;
    var asRun, asWorkflow := EncodePayload(RunPayload(a, b)), EncodePayload(WorkflowPayload(a, b));
    assert BuildMemberRunRef(a, b)[0] == 'r' as int && WORKFLOW_PREFIX[0] == 'w' as int;
    assert BuildWorkflowRef(a, b)[0] == 'w' as int && RUN_PREFIX[0] == 'r' as int;
    PrefixedStarts(RUN_PREFIX, asRun);
    PrefixedStarts(WORKFLOW_PREFIX, asWorkflow);
    PrefixedStarts(WORKFLOW_PREFIX, asRun);
    PrefixedStarts(RUN_PREFIX, asWorkflow);
    PayloadRoundTrip(RunPayload(a, b));
    PayloadRoundTrip(WorkflowPayload(a, b));
    RunFields(a, b, render);
    WorkflowFields(a, b, render);
    KeysReadBack();
  }

  // ---- the text of a reference -------------------------------------------------------------

  /** One member of an object as it is written, and what follows it. */
  function Written(key: Text, value: Text, rest: Text): Text {
    Quoted(key) + T(":") + Quoted(value) + rest
  }

  /** A reference is its prefix before the unpadded base64url of the UTF-8 bytes
      of a JSON object with sorted members and no spaces. */
  lemma ReferenceText(org: Text, workflow: Text, runId: Text)
    ensures var json := T("{") + Written(T("org"), org, T(",") + Written(T("workflow"), workflow, T("}")));
            BuildWorkflowRef(org, workflow)
            == T("wf_") + Base64Url.StripPadding(Base64Url.Encode(EncodeAll(json)))
    ensures var json := T("{") + Written(T("kind"), T("member"),
                T(",") + Written(T("org"), org, T(",") + Written(T("run_id"), runId, T("}"))));
            BuildMemberRunRef(org, runId) == T("run_") + Base64Url.StripPadding(Base64Url.Encode(EncodeAll(json)))
  {
    hide EncodeAll, Quoted, Base64Url.Encode, Base64Url.StripPadding, T;
    Punctuation();
    TwoMembers(ORG, org, WORKFLOW, workflow);
    ThreeMembers(KIND, MEMBER, ORG, org, RUN_ID, runId);
  }

  lemma Punctuation()
    ensures T("{") == [0x7B] && T("}") == [0x7D] && T(":") == [0x3A] && T(",") == [0x2C]
  {
  }

  lemma TwoMembers(a: Text, b: Text, c: Text, d: Text)
    ensures Dumps([(a, b), (c, d)])
         == [0x7B] + (Quoted(a) + [0x3A] + Quoted(b) + ([0x2C] + (Quoted(c) + [0x3A] + Quoted(d) + [0x7D])))
  {
    hide Quoted;
    assert [(a, b), (c, d)][1..] == [(c, d)];
    assert Members([(c, d)]) == Quoted(c) + [0x3A] + Quoted(d) + [0x7D];
  }

  lemma ThreeMembers(a: Text, b: Text, c: Text, d: Text, e: Text, f: Text)
    ensures Dumps([(a, b), (c, d), (e, f)])
         == [0x7B] + (Quoted(a) + [0x3A] + Quoted(b) + ([0x2C]
            + (Quoted(c) + [0x3A] + Quoted(d) + ([0x2C] + (Quoted(e) + [0x3A] + Quoted(f) + [0x7D])))))
  {
    hide Quoted;
    assert [(a, b), (c, d), (e, f)][1..] == [(c, d), (e, f)] && [(c, d), (e, f)][1..] == [(e, f)];
    assert Members([(e, f)]) == Quoted(e) + [0x3A] + Quoted(f) + [0x7D];
    assert Members([(c, d), (e, f)]) == Quoted(c) + [0x3A] + Quoted(d) + ([0x2C] + Members([(e, f)]));
  }
}
