/**
 * The apps service: the requests GetByID, Add and AddBookmarkApp issue, and
 * the validation and defaulting AddSAMLApp applies to its parameters before
 * delegating to Add.
 */
module Apps {
  import opened Wrappers
  import opened GoStrings
  import opened RateLimit
  import opened Http
  import opened Execution

  /** A SAML attribute statement; only its namespace is read or written by the service. */
  datatype AttributeStatement = AttributeStatement(name: string, namespace: string, values: seq<string>)

  /** A value in an app's settings map. */
  datatype SettingValue = Text(text: string) | Flag(flag: bool) | Statements(statements: seq<AttributeStatement>)

  /** The app's visibility object: absent, or the all-false one NewAppVisability builds. */
  datatype Visibility = NoVisibility | DefaultVisibility

  /** The fields of App a new application is created with. */
  datatype App = App(
    name: string,
    appLabel: string,
    signOnMode: string,
    visibility: Visibility,
    settings: map<string, map<string, SettingValue>>
  )

  const SignOnModeBookmark: string := "BOOKMARK"
  const SignOnModeSaml2: string := "SAML_2_0"
  /** The catalogue name of Okta's bookmark application. */
  const AppNameBookmark: string := "bookmark"

  // ---------------------------------------------------------------------------
  // GetByID and Add
  // ---------------------------------------------------------------------------

  const AppsPrefix: string := "apps/"
  const ActivatePrefix: string := "apps?activate="

  /** %t */
  function BoolText(b: bool): string {
    if b then "true" else "false"
  }

  /** GetByID: a GET of "apps/<id>" with no body, counted against the apps get/update/delete limit. */
  function GetById(id: string): (call: Call<App>)
    ensures call.verb == Get && call.body.None? && call.category == AppsGetUpdateDelete
    ensures HasPrefix(call.path, AppsPrefix) && call.path[|AppsPrefix|..] == id
  {
    Call(Get, AppsPrefix + id, None, AppsGetUpdateDelete)
  }

  /** Distinct ids give distinct paths, so the id can be read back from the request. */
  lemma GetByIdInjective(id1: string, id2: string)
    requires GetById(id1).path == GetById(id2).path
    ensures id1 == id2
  {
    assert id1 == GetById(id1).path[|AppsPrefix|..];
  }

  /** Add: a POST of the app to "apps?activate=true" or "apps?activate=false", counted against the apps create/list limit. */
  function Add(appIn: App, activate: bool): (call: Call<App>)
    ensures call.verb == Post && call.body == Some(appIn) && call.category == AppsCreateList
    ensures call.path == "apps?activate=true" <==> activate
    ensures call.path == "apps?activate=false" <==> !activate
  {
    Call(Post, ActivatePrefix + BoolText(activate), Some(appIn), AppsCreateList)
  }

  // ---------------------------------------------------------------------------
  // AddBookmarkApp
  // ---------------------------------------------------------------------------

  /** AddBookmarkApp: creates a bookmark app pointing at `url` through Add. */
  function AddBookmarkApp(appLabel: string, activate: bool, url: Url): (call: Call<App>)
    ensures call.verb == Post && call.category == AppsCreateList && call.body.Some?
    ensures call.path == Add(call.body.value, activate).path
    ensures var app := call.body.value;
      && app.appLabel == appLabel && app.name == AppNameBookmark && app.signOnMode == SignOnModeBookmark
      && app.settings.Keys == {"app"}
      && app.settings["app"] == map["requestIntegration" := Flag(false), "url" := Text(url.text)]
  {
    var appIn := App(AppNameBookmark, appLabel, SignOnModeBookmark, NoVisibility,
                     map["app" := map["requestIntegration" := Flag(false), "url" := Text(url.text)]]);
    Add(appIn, activate)
  }

  // ---------------------------------------------------------------------------
  // AddSAMLApp: parameters and the defaults cascade
  // ---------------------------------------------------------------------------

  /** The parameters of a custom SAML 2.0 application; URL fields are their String() text. */
  datatype SamlParams = SamlParams(
    defaultRelayState: string,
    ssoAcsUrl: Url,
    recipient: Url,
    destination: Url,
    audience: string,
    idpIssuer: string,
    subjectNameIdTemplate: string,
    subjectNameIdFormat: string,
    responseSigned: bool,
    assertionSigned: bool,
    signatureAlgorithm: string,
    digestAlgorithm: string,
    honorForceAuthn: bool,
    authnContextClassRef: string,
    attributeStatements: Option<seq<AttributeStatement>>   // None is a nil slice
  )

  /** The number of fields the defaulting switch tests, in the order it tests them. */
  const DefaultedFields: nat := 6

  /** The default of each defaulted field, in the switch's order. */
  const SamlDefaults: seq<string> := [
    "RSA_SHA256",
    "SHA256",
    "${user.userName}",
    "urn:oasis:names:tc:SAML:1.1:nameid-format:unspecified",
    "urn:oasis:names:tc:SAML:2.0:ac:classes:PasswordProtectedTransport",
    "http://www.okta.com/${org.externalKey}"
  ]

  /** The i-th field the switch tests. */
  function Defaulted(p: SamlParams, i: nat): string
    requires i < DefaultedFields
  {
    match i
    case 0 => p.signatureAlgorithm
    case 1 => p.digestAlgorithm
    case 2 => p.subjectNameIdTemplate
    case 3 => p.subjectNameIdFormat
    case 4 => p.authnContextClassRef
    case _ => p.idpIssuer
  }

  /** The parameters agree on every field the switch does not assign. */
  predicate SameUndefaulted(p: SamlParams, q: SamlParams) {
    && p.defaultRelayState == q.defaultRelayState
    && p.ssoAcsUrl == q.ssoAcsUrl
    && p.recipient == q.recipient
    && p.destination == q.destination
    && p.audience == q.audience
    && p.responseSigned == q.responseSigned
    && p.assertionSigned == q.assertionSigned
    && p.honorForceAuthn == q.honorForceAuthn
    && p.attributeStatements == q.attributeStatements
  }

  /** Assigns the i-th defaulted field. */
  function WithDefaulted(p: SamlParams, i: nat, v: string): (q: SamlParams)
    requires i < DefaultedFields
    ensures Defaulted(q, i) == v
    ensures forall j :: 0 <= j < DefaultedFields && j != i ==> Defaulted(q, j) == Defaulted(p, j)
    ensures SameUndefaulted(p, q)
  {
    match i
    case 0 => p.(signatureAlgorithm := v)
    case 1 => p.(digestAlgorithm := v)
    case 2 => p.(subjectNameIdTemplate := v)
    case 3 => p.(subjectNameIdFormat := v)
    case 4 => p.(authnContextClassRef := v)
    case _ => p.(idpIssuer := v)
  }

  /** The index of the first empty defaulted field, or DefaultedFields when none is empty. */
  function FirstEmpty(p: SamlParams): (k: nat)
    ensures k <= DefaultedFields
    ensures k < DefaultedFields ==> Defaulted(p, k) == ""
    ensures forall j :: 0 <= j < k ==> Defaulted(p, j) != ""
  {
    FirstEmptyFrom(p, 0)
  }

  function FirstEmptyFrom(p: SamlParams, i: nat): (k: nat)
    requires i <= DefaultedFields
    requires forall j :: 0 <= j < i ==> Defaulted(p, j) != ""
    ensures i <= k <= DefaultedFields
    ensures k < DefaultedFields ==> Defaulted(p, k) == ""
    ensures forall j :: 0 <= j < k ==> Defaulted(p, j) != ""
    decreases DefaultedFields - i
  {
    if i == DefaultedFields then i
    else if Defaulted(p, i) == "" then i
    else FirstEmptyFrom(p, i + 1)
  }

  /** The body of the matched case and of every case after it: each assigns its default. */
  function FallThrough(p: SamlParams, k: nat): SamlParams
    requires k <= DefaultedFields
    decreases DefaultedFields - k
  {
    if k == DefaultedFields then p else FallThrough(WithDefaulted(p, k, SamlDefaults[k]), k + 1)
  }

  /** The defaulting switch as written: the first case whose field is empty runs, then falls through to the end. */
  function ApplyDefaultsAsWritten(p: SamlParams): SamlParams {
    if p.signatureAlgorithm == "" then FallThrough(p, 0)
    else if p.digestAlgorithm == "" then FallThrough(p, 1)
    else if p.subjectNameIdTemplate == "" then FallThrough(p, 2)
    else if p.subjectNameIdFormat == "" then FallThrough(p, 3)
    else if p.authnContextClassRef == "" then FallThrough(p, 4)
    else if p.idpIssuer == "" then FallThrough(p, 5)
    else p
  }

  /** Falling through from case k assigns the default of field k and of every later field. */
  lemma {:induction false} FallThroughFields(p: SamlParams, k: nat)
    requires k <= DefaultedFields
    ensures forall i :: 0 <= i < DefaultedFields ==>
              Defaulted(FallThrough(p, k), i) == if k <= i then SamlDefaults[i] else Defaulted(p, i)
    ensures SameUndefaulted(p, FallThrough(p, k))
    decreases DefaultedFields - k
  {
    if k < DefaultedFields {
      var next := WithDefaulted(p, k, SamlDefaults[k]);
      FallThroughFields(next, k + 1);
      assert FallThrough(p, k) == FallThrough(next, k + 1);
    }
  }

  /**
   * The cascade as written: fields before the first empty one keep their
   * value; that field and every later one get their default, even a later
   * field the caller had set. With no empty field nothing changes.
   */
  lemma DefaultsCascade(p: SamlParams)
    ensures forall i :: 0 <= i < DefaultedFields ==>
              Defaulted(ApplyDefaultsAsWritten(p), i) == if FirstEmpty(p) <= i then SamlDefaults[i] else Defaulted(p, i)
    ensures SameUndefaulted(p, ApplyDefaultsAsWritten(p))
    ensures FirstEmpty(p) == DefaultedFields ==> ApplyDefaultsAsWritten(p) == p
  {
    var k := FirstEmpty(p);
    if k < DefaultedFields {
      FallThroughFields(p, k);
    }
  }

  /** A digest algorithm the caller chose is replaced when the signature algorithm is left empty. */
  lemma CascadeOverwritesChosenDigest(p: SamlParams)
    requires p.signatureAlgorithm == "" && p.digestAlgorithm == "SHA1"
    ensures ApplyDefaultsAsWritten(p).digestAlgorithm == "SHA256"
    ensures ApplyDefaults(p).digestAlgorithm == "SHA1"
  {
    FallThroughFields(p, 0);
  }

  /** The evident intent of the defaults: each empty field gets its default, and only empty fields do. */
  function ApplyDefaults(p: SamlParams): (q: SamlParams)
    ensures forall i :: 0 <= i < DefaultedFields ==>
              Defaulted(q, i) == if Defaulted(p, i) == "" then SamlDefaults[i] else Defaulted(p, i)
    ensures SameUndefaulted(p, q)
  {
    p.(signatureAlgorithm := OrDefault(p.signatureAlgorithm, SamlDefaults[0]),
       digestAlgorithm := OrDefault(p.digestAlgorithm, SamlDefaults[1]),
       subjectNameIdTemplate := OrDefault(p.subjectNameIdTemplate, SamlDefaults[2]),
       subjectNameIdFormat := OrDefault(p.subjectNameIdFormat, SamlDefaults[3]),
       authnContextClassRef := OrDefault(p.authnContextClassRef, SamlDefaults[4]),
       idpIssuer := OrDefault(p.idpIssuer, SamlDefaults[5]))
  }

  function OrDefault(v: string, default: string): string {
    if v == "" then default else v
  }

  /** Every default is a non-empty string. */
  lemma DefaultNonEmpty(i: nat)
    requires i < DefaultedFields
    ensures SamlDefaults[i] != ""
  {
    assert |SamlDefaults[i]| > 0 by {
      if i == 0 {} else if i == 1 {} else if i == 2 {} else if i == 3 {} else if i == 4 {} else {}
    }
  }

  /** After defaulting, both versions leave every defaulted field non-empty. */
  lemma DefaultsFillEveryField(p: SamlParams)
    ensures forall i :: 0 <= i < DefaultedFields ==> Defaulted(ApplyDefaults(p), i) != ""
    ensures forall i :: 0 <= i < DefaultedFields ==> Defaulted(ApplyDefaultsAsWritten(p), i) != ""
  {
    DefaultsCascade(p);
    forall i | 0 <= i < DefaultedFields
      ensures Defaulted(ApplyDefaults(p), i) != "" && Defaulted(ApplyDefaultsAsWritten(p), i) != ""
    {
      DefaultNonEmpty(i);
    }
  }

  /** Defaulting twice is defaulting once, for both versions. */
  lemma DefaultsIdempotent(p: SamlParams)
    ensures ApplyDefaults(ApplyDefaults(p)) == ApplyDefaults(p)
    ensures ApplyDefaultsAsWritten(ApplyDefaultsAsWritten(p)) == ApplyDefaultsAsWritten(p)
  {
    DefaultsFillEveryField(p);
    var q := ApplyDefaultsAsWritten(p);
    assert FirstEmpty(q) == DefaultedFields;
    DefaultsCascade(q);
  }

  /** A field after the first empty one holds nothing or its default. */
  predicate Harmless(p: SamlParams, i: nat)
    requires i < DefaultedFields
  {
    i < FirstEmpty(p) || Defaulted(p, i) == "" || Defaulted(p, i) == SamlDefaults[i]
  }

  /** The two versions agree exactly when every field after the first empty one is harmless. */
  lemma DefaultsAgreeIff(p: SamlParams)
    ensures ApplyDefaults(p) == ApplyDefaultsAsWritten(p) <==> forall i :: 0 <= i < DefaultedFields ==> Harmless(p, i)
  {
    var q := ApplyDefaults(p);
    var w := ApplyDefaultsAsWritten(p);
    forall i | 0 <= i < DefaultedFields
      ensures Defaulted(q, i) == Defaulted(w, i) <==> Harmless(p, i)
    {
      DefaultsAgreeAt(p, i);
    }
    if forall i :: 0 <= i < DefaultedFields ==> Harmless(p, i) {
      DefaultsCascade(p);
      EqualByFields(q, w);
    }
  }

  lemma DefaultsAgreeAt(p: SamlParams, i: nat)
    requires i < DefaultedFields
    ensures Defaulted(ApplyDefaults(p), i) == Defaulted(ApplyDefaultsAsWritten(p), i) <==> Harmless(p, i)
  {
    DefaultsCascade(p);
  }

  /** Parameters that agree on every field are equal. */
  lemma EqualByFields(q: SamlParams, w: SamlParams)
    requires SameUndefaulted(q, w)
    requires forall i :: 0 <= i < DefaultedFields ==> Defaulted(q, i) == Defaulted(w, i)
    ensures q == w
  {
    assert Defaulted(q, 0) == Defaulted(w, 0) && Defaulted(q, 1) == Defaulted(w, 1);
    assert Defaulted(q, 2) == Defaulted(w, 2) && Defaulted(q, 3) == Defaulted(w, 3);
    assert Defaulted(q, 4) == Defaulted(w, 4) && Defaulted(q, 5) == Defaulted(w, 5);
  }

  // ---------------------------------------------------------------------------
  // AddSAMLApp: attribute statement namespaces
  // ---------------------------------------------------------------------------

  const UnspecifiedNamespace: string := "urn:oasis:names:tc:SAML:2.0:attrname-format:unspecified"

  /**
   * The namespace step as written: a nil or empty list becomes an empty list;
   * the loop over a non-empty list assigns to the loop's copy of each element,
   * so the list is returned as it was.
   */
  function NormaliseStatementsAsWritten(statements: Option<seq<AttributeStatement>>): seq<AttributeStatement> {
    match statements
    case None => []
    case Some(list) => if |list| > 0 then list else []
  }

  /** A statement with an empty namespace keeps it through the as-written step. */
  lemma AsWrittenKeepsEmptyNamespace(list: seq<AttributeStatement>, i: nat)
    requires i < |list| && list[i].namespace == ""
    ensures NormaliseStatementsAsWritten(Some(list))[i].namespace == ""
    ensures NormaliseStatements(Some(list))[i].namespace == UnspecifiedNamespace
  {
  }

  function WithNamespaceDefault(s: AttributeStatement): AttributeStatement {
    if s.namespace == "" then s.(namespace := UnspecifiedNamespace) else s
  }

  /** The evident intent: every statement with an empty namespace gets the unspecified-format namespace. */
  function NormaliseStatements(statements: Option<seq<AttributeStatement>>): (r: seq<AttributeStatement>)
    ensures statements.None? ==> r == []
    ensures statements.Some? ==> |r| == |statements.value|
    ensures statements.Some? ==> forall i :: 0 <= i < |r| ==>
              && r[i].name == statements.value[i].name
              && r[i].values == statements.value[i].values
              && r[i].namespace == (if statements.value[i].namespace == "" then UnspecifiedNamespace
                                    else statements.value[i].namespace)
  {
    match statements
    case None => []
    case Some(list) => seq(|list|, i requires 0 <= i < |list| => WithNamespaceDefault(list[i]))
  }

  /** Both versions agree on lists in which every namespace is already set. */
  lemma StatementsAgreeWhenNamespaced(list: seq<AttributeStatement>)
    requires forall i :: 0 <= i < |list| ==> list[i].namespace != ""
    ensures NormaliseStatements(Some(list)) == NormaliseStatementsAsWritten(Some(list))
  {
  }

  // ---------------------------------------------------------------------------
  // AddSAMLApp
  // ---------------------------------------------------------------------------

  const NeitherSignedMessage: string :=
    "Invalid paramaters, either `ResponseSigned` or `AssertionSigned` must be true"

  /** The `signOn` settings of a custom SAML app, one key per parameter. */
  function SignOnSettings(p: SamlParams, statements: seq<AttributeStatement>): map<string, SettingValue> {
    map[
      "defaultRelayState" := Text(p.defaultRelayState),
      "ssoAcsUrl" := Text(p.ssoAcsUrl.text),
      "recipient" := Text(p.recipient.text),
      "destination" := Text(p.destination.text),
      "audience" := Text(p.audience),
      "idpIssuer" := Text(p.idpIssuer),
      "subjectNameIdTemplate" := Text(p.subjectNameIdTemplate),
      "subjectNameIdFormat" := Text(p.subjectNameIdFormat),
      "responseSigned" := Flag(p.responseSigned),
      "assertionSigned" := Flag(p.assertionSigned),
      "signatureAlgorithm" := Text(p.signatureAlgorithm),
      "digestAlgorithm" := Text(p.digestAlgorithm),
      "honorForceAuthn" := Flag(p.honorForceAuthn),
      "authnContextClassRef" := Text(p.authnContextClassRef),
      "attributeStatements" := Statements(statements)
    ]
  }

  /**
   * The outcome of AddSAMLApp before any network traffic: rejected parameters,
   * or the parameters as the call leaves them (it updates the caller's value)
   * together with the Add call it makes.
   */
  datatype SamlOutcome = SamlRejected(message: string) | SamlPrepared(params: SamlParams, call: Call<App>)

  /**
   * AddSAMLApp as written: rejected exactly when neither signing flag is set;
   * otherwise the defaults cascade from the first empty field to the last, a
   * non-empty statement list is posted exactly as given (empty namespaces
   * included), a nil or empty one as an empty list, and a nameless SAML 2.0
   * app whose signOn settings carry the resulting parameters is posted
   * through Add.
   */
  function AddSamlAppAsWritten(appLabel: string, activate: bool, params: SamlParams): (r: SamlOutcome)
    ensures r.SamlRejected? <==> !params.responseSigned && !params.assertionSigned
    ensures r.SamlRejected? ==> r.message == NeitherSignedMessage
    ensures r.SamlPrepared? ==>
      && (forall i :: 0 <= i < DefaultedFields ==>
            Defaulted(r.params, i) == if FirstEmpty(params) <= i then SamlDefaults[i] else Defaulted(params, i))
      && SameUndefaulted(params, r.params.(attributeStatements := params.attributeStatements))
      && r.params.attributeStatements
         == Some(if params.attributeStatements.Some? && |params.attributeStatements.value| > 0
                 then params.attributeStatements.value else [])
      && r.call.verb == Post && r.call.category == AppsCreateList && r.call.body.Some?
      && r.call.path == Add(r.call.body.value, activate).path
    ensures r.SamlPrepared? ==> var app := r.call.body.value;
      && app.name == "" && app.appLabel == appLabel && app.signOnMode == SignOnModeSaml2
      && app.visibility == DefaultVisibility
      && app.settings == map["signOn" := SignOnSettings(r.params, r.params.attributeStatements.value)]
  {
    if !params.responseSigned && !params.assertionSigned then SamlRejected(NeitherSignedMessage)
    else
      DefaultsCascade(params);
      var statements := NormaliseStatementsAsWritten(params.attributeStatements);
      var filled := ApplyDefaultsAsWritten(params).(attributeStatements := Some(statements));
      var appIn := App("", appLabel, SignOnModeSaml2, DefaultVisibility, map["signOn" := SignOnSettings(filled, statements)]);
      SamlPrepared(filled, Add(appIn, activate))
  }

  /**
   * AddSAMLApp, with the defaults and namespaces applied as evidently intended:
   * rejected exactly when neither signing flag is set; otherwise every defaulted
   * field is filled, and a nameless SAML 2.0 app whose signOn settings carry
   * the filled parameters is posted through Add.
   */
  function AddSamlApp(appLabel: string, activate: bool, params: SamlParams): (r: SamlOutcome)
    ensures r.SamlRejected? <==> !params.responseSigned && !params.assertionSigned
    ensures r.SamlRejected? ==> r.message == NeitherSignedMessage
    ensures r.SamlPrepared? ==>
      && (forall i :: 0 <= i < DefaultedFields ==> Defaulted(r.params, i) != "")
      && (forall i :: 0 <= i < DefaultedFields && Defaulted(params, i) != "" ==>
            Defaulted(r.params, i) == Defaulted(params, i))
      && SameUndefaulted(params, r.params.(attributeStatements := params.attributeStatements))
      && r.params.attributeStatements == Some(NormaliseStatements(params.attributeStatements))
      && r.call.verb == Post && r.call.category == AppsCreateList && r.call.body.Some?
      && r.call.path == Add(r.call.body.value, activate).path
    ensures r.SamlPrepared? ==> var app := r.call.body.value;
      && app.name == "" && app.appLabel == appLabel && app.signOnMode == SignOnModeSaml2
      && app.visibility == DefaultVisibility
      && app.settings == map["signOn" := SignOnSettings(r.params, r.params.attributeStatements.value)]
  {
    if !params.responseSigned && !params.assertionSigned then SamlRejected(NeitherSignedMessage)
    else
      var statements := NormaliseStatements(params.attributeStatements);
      var filled := ApplyDefaults(params).(attributeStatements := Some(statements));
      var appIn := App("", appLabel, SignOnModeSaml2, DefaultVisibility, map["signOn" := SignOnSettings(filled, statements)]);
      SamlPrepared(filled, Add(appIn, activate))
  }

  /**
   * The program and its corrected reading post the same app exactly when the
   * findings do not bite: no set field follows the first empty one (or it
   * holds its default), and every statement already has a namespace.
   */
  lemma AddSamlAppAgrees(appLabel: string, activate: bool, params: SamlParams)
    requires forall i :: 0 <= i < DefaultedFields ==> Harmless(params, i)
    requires params.attributeStatements.Some? ==>
               forall i :: 0 <= i < |params.attributeStatements.value| ==> params.attributeStatements.value[i].namespace != ""
    ensures AddSamlAppAsWritten(appLabel, activate, params) == AddSamlApp(appLabel, activate, params)
  {
    DefaultsAgreeIff(params);
    if params.attributeStatements.Some? {
      StatementsAgreeWhenNamespaced(params.attributeStatements.value);
    }
  }

  /** On the finding's input, the program posts digest SHA256 where the caller chose SHA1. */
  lemma AddSamlAppOverwritesDigest(appLabel: string, activate: bool, params: SamlParams)
    requires params.responseSigned && params.signatureAlgorithm == "" && params.digestAlgorithm == "SHA1"
    ensures AddSamlAppAsWritten(appLabel, activate, params).params.digestAlgorithm == "SHA256"
    ensures AddSamlApp(appLabel, activate, params).params.digestAlgorithm == "SHA1"
  {
    CascadeOverwritesChosenDigest(params);
  }
}
