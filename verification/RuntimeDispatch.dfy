/**
 Which response a request gets from a sound manifest, told of its lists of pages and actions
 (packages/reference-runtime/src/runtime.ts, createReferenceRuntime and handleAction).
 */
module RuntimeDispatch {
  import opened Wrappers
  import opened Texts
  import opened Sequences
  import opened Contracts
  import opened ContractValidation
  import opened RuntimeForm
  import opened DecodeConformance
  import opened RuntimeManifest
  import opened ManifestBehaviour

  ghost predicate HasPage(manifest: Manifest, path: Text) {
    exists p :: p in manifest.pages && p.path == path
  }

  ghost predicate HasAction(manifest: Manifest, path: Text) {
    exists a :: a in manifest.actions && a.path == path
  }

  lemma KeyOnce<T, K>(key: T -> K, s: seq<T>, x: T, y: T)
    requires Distinct(Map(key, s)) && x in s && y in s && key(x) == key(y)
    ensures x == y
  {
    var i :| 0 <= i < |s| && s[i] == x;
    var j :| 0 <= j < |s| && s[j] == y;
    assert Map(key, s)[i] == Map(key, s)[j];
  }

  // In a sound manifest a path has one page and one action at most.
  lemma OnePerPath(manifest: Manifest, path: Text)
    requires ManifestSound(manifest)
    ensures forall p :: p in manifest.pages && p.path == path ==> PageAt(manifest.pages, path) == Some(p)
    ensures forall a :: a in manifest.actions && a.path == path ==> ActionAt(manifest.actions, path) == Some(a)
  {
    forall p | p in manifest.pages && p.path == path ensures PageAt(manifest.pages, path) == Some(p) {
      KeyOnce((p: Page) => p.path, manifest.pages, p, PageAt(manifest.pages, path).value);
    }
    forall a | a in manifest.actions && a.path == path ensures ActionAt(manifest.actions, path) == Some(a) {
      KeyOnce((a: Action) => a.path, manifest.actions, a, ActionAt(manifest.actions, path).value);
    }
  }

  // A page is served exactly to GET, at the path of a page with that text.
  lemma ServedExactly(host: Host, manifest: Manifest, verb: Verb, path: Text, fields: RawFields, html: Text)
    requires ManifestSound(manifest)
    ensures Handle(host, manifest, verb, path, fields) == ServePage(html) <==>
      verb == Get && exists p :: p in manifest.pages && p.path == path && p.html == html
  {
    OnePerPath(manifest, path);
  }

  // A handler is called exactly by POST, at the path of an action that names it, with accepted fields and what they decode to.
  lemma HandledExactly(host: Host, manifest: Manifest, verb: Verb, path: Text, fields: RawFields,
                       actionId: Text, handlerId: Text, actionPath: Text, input: map<Text, Value>)
    requires ManifestSound(manifest)
    ensures Handle(host, manifest, verb, path, fields) == Handled(actionId, handlerId, actionPath, input) <==>
      && verb == Post && actionPath == path
      && exists a :: a in manifest.actions && a.path == path && a.id == actionId && a.handlerId == handlerId
           && RawFieldsAccepted(a.input, fields) && DecodedInput(host, a.input, fields) == Success(input)
  {
    OnePerPath(manifest, path);
  }

  // What a handler gets, if the manifest's contracts are plain: the declared properties, all required ones, in kind and bounds,
  // and everything that was submitted for them.
  lemma HandlerInput(host: Host, manifest: Manifest, path: Text, fields: RawFields, action: Action)
    requires ManifestSound(manifest) && action in manifest.actions && action.path == path
    requires InputSound(action.input) && NoReservedProperty(action.input) && RawFieldsAccepted(action.input, fields)
    requires NoneMisread(host, action.input, fields)
    ensures AllAccept(host, action.input, fields, action.input.bindings) ==>
      exists input ::
        && Handle(host, manifest, Post, path, fields) == Handled(action.id, action.handlerId, path, input)
        && InputDecoded(host, action.input, fields, input)
    ensures !AllAccept(host, action.input, fields, action.input.bindings) ==> Handle(host, manifest, Post, path, fields) == Refused
  {
    OnePerPath(manifest, path);
    DecodedInputConforms(host, action.input, fields);
    if AllAccept(host, action.input, fields, action.input.bindings) {
      var input := DecodedInput(host, action.input, fields).value;
      assert Handle(host, manifest, Post, path, fields) == Handled(action.id, action.handlerId, path, input);
    }
  }

  // A request is refused exactly for an action whose fields it does not fit, or whose decoding comes to a refusal.
  lemma RefusedExactly(host: Host, manifest: Manifest, verb: Verb, path: Text, fields: RawFields)
    requires ManifestSound(manifest) && ActionsSound(manifest)
    ensures Handle(host, manifest, verb, path, fields) == Refused <==>
      && verb == Post
      && exists a :: a in manifest.actions && a.path == path
           && (RawFieldsAccepted(a.input, fields) ==> FailsFirst(host, a.input, fields, a.input.bindings, BadRequest))
  {
    OnePerPath(manifest, path);
    if action :| action in manifest.actions && action.path == path {
      ActionRefuses(host, action, fields);
    }
  }

  lemma ActionRefuses(host: Host, action: Action, fields: RawFields)
    requires InputSound(action.input)
    ensures HandleAction(host, action, fields) == Refused <==>
      (RawFieldsAccepted(action.input, fields) ==> FailsFirst(host, action.input, fields, action.input.bindings, BadRequest))
  {
    if RawFieldsAccepted(action.input, fields) {
      FailsExactly(host, action.input, fields, BadRequest);
    }
  }

  // Another method is not allowed exactly where something is at the path, but not for this method; GET is allowed exactly
  // where a page is and POST exactly where an action is.
  lemma MethodNotAllowedExactly(host: Host, manifest: Manifest, verb: Verb, path: Text, fields: RawFields, get: bool, post: bool)
    ensures Handle(host, manifest, verb, path, fields) == MethodNotAllowed(get, post) <==>
      && get == HasPage(manifest, path) && post == HasAction(manifest, path) && (get || post)
      && (get ==> verb != Get) && (post ==> verb != Post)
  {
  }

  lemma NotFoundExactly(host: Host, manifest: Manifest, verb: Verb, path: Text, fields: RawFields)
    ensures Handle(host, manifest, verb, path, fields) == NotFound <==> !HasPage(manifest, path) && !HasAction(manifest, path)
  {
  }
}
