/**
 * The organization-scoped request shaping of the code-rule service: the
 * `organizationId` placeholder in a path template is filled with the id or
 * cut out, the id is removed from the parameters that travel as query or
 * body, and each endpoint wrapper combines the two.
 *
 * `request`, `parseParameters` and `HZERO_PLATFORM` are not part of this
 * model: an endpoint returns the request descriptor it would hand to
 * `request`, the result of `parseParameters` is a parameter `parsed`, and the
 * platform prefix is a parameter `platform`.
 */
module CodeRuleOrgService {
  import opened Options
  import opened Text
  import opened JsValues
  import opened RegexReplace

  /** The placeholder token and the params key that carries the id. */
  const OrgIdKey: string := "organizationId"
  /** The path segment removed when there is no id. */
  const OrgIdSegment: string := "/organizationId"
  /** The params key that carries the rows of a batch deletion. */
  const SelectedRowsKey: string := "selectedRows"

  /**
   * `changeUrl(params, url)`. An id that is not undefined (null, 0 and ''
   * included) replaces every occurrence of the token; an undefined id cuts
   * out the first `/organizationId` only.
   */
  function ChangeUrl(params: Object, url: string): (r: string)
    ensures Prop(params, OrgIdKey) != Undefined && '$' !in ToString(params[OrgIdKey]) ==>
              r == Join(SplitOn(url, OrgIdKey), ToString(params[OrgIdKey]))
    ensures Prop(params, OrgIdKey) == Undefined && !Contains(url, OrgIdSegment) ==> r == url
    ensures Prop(params, OrgIdKey) == Undefined ==>
              forall k: nat | FirstAt(url, OrgIdSegment, k) :: r == url[..k] + url[k + |OrgIdSegment|..]
  {
    var id := Prop(params, OrgIdKey);
    if id != Undefined then
      var rep := ToString(id);
      LiteralReplaceIsSplitJoin(url, rep);
      ReplaceAll(url, OrgIdKey, rep)
    else
      ReplaceFirstRemoves(url, OrgIdSegment);
      ReplaceFirst(url, OrgIdSegment, "")
  }

  lemma LiteralReplaceIsSplitJoin(url: string, rep: string)
    ensures '$' !in rep ==> ReplaceAll(url, OrgIdKey, rep) == Join(SplitOn(url, OrgIdKey), rep)
  {
    if '$' !in rep {
      ReplaceAllIsSplitJoin(url, OrgIdKey, rep);
    }
  }

  /** `k` is the first index where `pat` occurs in `s`. */
  predicate FirstAt(s: string, pat: string, k: nat) {
    OccursAt(s, pat, k) && forall j: nat :: j < k ==> !OccursAt(s, pat, j)
  }

  /** Replacing the first occurrence with nothing cuts exactly that occurrence out. */
  lemma ReplaceFirstRemoves(s: string, pat: string)
    ensures !Contains(s, pat) ==> ReplaceFirst(s, pat, "") == s
    ensures forall k: nat | FirstAt(s, pat, k) :: ReplaceFirst(s, pat, "") == s[..k] + s[k + |pat|..]
  {
    forall k: nat | FirstAt(s, pat, k) ensures ReplaceFirst(s, pat, "") == s[..k] + s[k + |pat|..] {
      var r := IndexOf(s, pat);
      assert OccursAt(s, pat, k);
      assert r.Some?;
      assert OccursAt(s, pat, r.value);
      assert r.value == k;
    }
  }

  /**
   * The caller-visible outcome of a shaping call: what is sent, and the
   * object the deletion acts on, as it is afterwards (the key is deleted in
   * place). That object is the caller's `params` everywhere except in
   * `queryCodeList`, whose deletion acts on the parsed parameters.
   */
  datatype Shaped<T> = Shaped(sent: T, callerAfter: Object)

  /**
   * `deleteOrgId(params)`: a truthy id is deleted from the caller's object,
   * and a shallow copy of that object is returned.
   */
  function DeleteOrgId(params: Object): (r: Shaped<Object>)
    ensures r.callerAfter == r.sent
    ensures OrgIdKey in r.sent <==> OrgIdKey in params && !Truthy(params[OrgIdKey])
    ensures forall k | k in r.sent :: k in params && r.sent[k] == params[k]
    ensures forall k | k in params && k != OrgIdKey :: k in r.sent
  {
    var after := if Truthy(Prop(params, OrgIdKey)) then params - {OrgIdKey} else params;
    Shaped(after, after)
  }

  /** Shaping a second time changes nothing. */
  lemma DeleteOrgIdIdempotent(params: Object)
    ensures DeleteOrgId(DeleteOrgId(params).sent) == DeleteOrgId(params)
  {
    var once := DeleteOrgId(params).sent;
    assert OrgIdKey in once ==> !Truthy(once[OrgIdKey]);
  }

  /** Without a truthy id the parameters pass through unchanged. */
  lemma DeleteOrgIdKeepsFalsy(params: Object)
    requires !Truthy(Prop(params, OrgIdKey))
    ensures DeleteOrgId(params).sent == params
  {
  }

  /**
   * `deleteOrgIdArr(params)`: the same in-place deletion, then the
   * `selectedRows` value itself is returned (undefined when absent).
   */
  function DeleteOrgIdArr(params: Object): (r: Shaped<Value>)
    ensures r.sent == Prop(params, SelectedRowsKey)
    ensures r.callerAfter == DeleteOrgId(params).callerAfter
  {
    var after := DeleteOrgId(params).callerAfter;
    Shaped(Prop(after, SelectedRowsKey), after)
  }

  datatype Verb = Get | Post | Delete

  /** The options object handed to `request`: Undefined stands for an option not given. */
  datatype Request = Request(url: string, verb: Verb, query: Value, body: Value)

  /** The template `${HZERO_PLATFORM}/v1/organizationId<resource>`. */
  function ScopedPath(platform: string, resource: string): string {
    platform + "/v1" + OrgIdSegment + resource
  }

  function CodeRulePath(platform: string): string {
    ScopedPath(platform, "/code-rule")
  }

  function CodeRuleDistPath(platform: string): string {
    ScopedPath(platform, "/code-rule-dist")
  }

  function CodeRuleDetailPath(platform: string): string {
    ScopedPath(platform, "/code-rule-detail")
  }

  /** The same template, cut before the bare token. */
  lemma ScopedPathAroundToken(platform: string, resource: string)
    ensures ScopedPath(platform, resource) == (platform + "/v1/") + OrgIdKey + resource
  {
    assert OrgIdSegment == "/" + OrgIdKey;
    assert "/v1" + OrgIdSegment == "/v1/" + OrgIdKey;
  }

  /**
   * `after` is `before` without a truthy id: the id is kept exactly when it
   * is falsy, and every key of `after` is a key of `before` with the same
   * value, every other key of `before` included.
   */
  predicate IdDeleted(before: Object, after: Object) {
    && (OrgIdKey in after <==> OrgIdKey in before && !Truthy(before[OrgIdKey]))
    && (forall k | k in after :: k in before && after[k] == before[k])
    && (forall k | k in before && k != OrgIdKey :: k in after)
  }

  /**
   * The shape every scoped write endpoint has: the URL is resolved from the
   * params as the caller gave them, and the body is the caller's object after
   * the id has been deleted from it.
   */
  predicate ScopedPost(params: Object, template: string, r: Shaped<Request>) {
    && r.sent.url == ChangeUrl(params, template)
    && r.sent.verb == Post
    && r.sent.query == Undefined
    && r.sent.body == Obj(r.callerAfter)
    && IdDeleted(params, r.callerAfter)
  }

  /** The shape of a scoped batch deletion: the body is the `selectedRows` value alone. */
  predicate ScopedBatchDelete(params: Object, template: string, r: Shaped<Request>) {
    && r.sent.url == ChangeUrl(params, template)
    && r.sent.verb == Delete
    && r.sent.query == Undefined
    && r.sent.body == Prop(params, SelectedRowsKey)
    && IdDeleted(params, r.callerAfter)
  }

  /** A scoped POST: the URL is computed before `deleteOrgId` runs on the same object. */
  function PostScoped(params: Object, template: string): (r: Shaped<Request>)
    ensures ScopedPost(params, template, r)
  {
    var url := ChangeUrl(params, template);
    var d := DeleteOrgId(params);
    Shaped(Request(url, Post, Undefined, Obj(d.sent)), d.callerAfter)
  }

  /** A scoped batch DELETE: the URL is computed before `deleteOrgIdArr` runs. */
  function DeleteScoped(params: Object, template: string): (r: Shaped<Request>)
    ensures ScopedBatchDelete(params, template, r)
  {
    var url := ChangeUrl(params, template);
    var d := DeleteOrgIdArr(params);
    Shaped(Request(url, Delete, Undefined, d.sent), d.callerAfter)
  }

  /**
   * `queryCodeList(params)`: the URL is resolved from `params`, while the
   * query is `deleteOrgId` of the parsed parameters, which are what the
   * deletion touches; `callerAfter` is therefore the parsed object after
   * the deletion, and `params` itself is left alone.
   */
  function QueryCodeList(platform: string, params: Object, parsed: Object): (r: Shaped<Request>)
    ensures r.sent.url == ChangeUrl(params, CodeRulePath(platform))
    ensures r.sent.verb == Get && r.sent.body == Undefined
    ensures r.sent.query == Obj(r.callerAfter)
    ensures IdDeleted(parsed, r.callerAfter)
  {
    var url := ChangeUrl(params, CodeRulePath(platform));
    var d := DeleteOrgId(parsed);
    Shaped(Request(url, Get, Obj(d.sent), Undefined), d.callerAfter)
  }

  function DeleteCodeRule(platform: string, params: Object): (r: Shaped<Request>)
    ensures ScopedBatchDelete(params, CodeRulePath(platform), r)
  {
    DeleteScoped(params, CodeRulePath(platform))
  }

  function AddCodeValue(platform: string, params: Object): (r: Shaped<Request>)
    ensures ScopedPost(params, CodeRulePath(platform), r)
  {
    PostScoped(params, CodeRulePath(platform))
  }

  /**
   * `queryDist(params)`: the rule id is interpolated into the template, the
   * placeholder is resolved from the parsed parameters, and those are sent
   * as the query without any deletion.
   */
  function QueryDist(platform: string, params: Object, parsed: Object): (r: Shaped<Request>)
    ensures r.sent.url == ChangeUrl(parsed, CodeRulePath(platform) + "/" + ToString(Prop(params, "ruleId")))
    ensures r.sent.verb == Get && r.sent.query == Obj(parsed) && r.sent.body == Undefined
    ensures r.callerAfter == params
  {
    var url := ChangeUrl(parsed, CodeRulePath(platform) + "/" + ToString(Prop(params, "ruleId")));
    Shaped(Request(url, Get, Obj(parsed), Undefined), params)
  }

  function DeleteDist(platform: string, params: Object): (r: Shaped<Request>)
    ensures ScopedBatchDelete(params, CodeRuleDistPath(platform), r)
  {
    DeleteScoped(params, CodeRuleDistPath(platform))
  }

  /** `queryDetail(params)`: no query and no body; the params are not touched. */
  function QueryDetail(platform: string, params: Object): (r: Shaped<Request>)
    ensures r.sent.url == ChangeUrl(params, CodeRuleDetailPath(platform) + "/" + ToString(Prop(params, "ruleDistId")))
    ensures r.sent.verb == Get && r.sent.query == Undefined && r.sent.body == Undefined
    ensures r.callerAfter == params
  {
    var url := ChangeUrl(params, CodeRuleDetailPath(platform) + "/" + ToString(Prop(params, "ruleDistId")));
    Shaped(Request(url, Get, Undefined, Undefined), params)
  }

  function AddDistValue(platform: string, params: Object): (r: Shaped<Request>)
    ensures ScopedPost(params, CodeRuleDistPath(platform), r)
  {
    PostScoped(params, CodeRuleDistPath(platform))
  }

  function AddCodeDetail(platform: string, params: Object): (r: Shaped<Request>)
    ensures ScopedPost(params, CodeRuleDetailPath(platform), r)
  {
    PostScoped(params, CodeRuleDetailPath(platform))
  }

  function DeleteCodeDetail(platform: string, params: Object): (r: Shaped<Request>)
    ensures ScopedBatchDelete(params, CodeRuleDetailPath(platform), r)
  {
    DeleteScoped(params, CodeRuleDetailPath(platform))
  }

  /** `queryCode(params)`: a fixed, unscoped URL; the params are the query as given. */
  function QueryCode(platform: string, params: Object): (r: Shaped<Request>)
    ensures r.sent.url == platform + "/v1/lovs/value"
    ensures r.sent.verb == Get && r.sent.query == Obj(params) && r.sent.body == Undefined
    ensures r.callerAfter == params
  {
    Shaped(Request(platform + "/v1/lovs/value", Get, Obj(params), Undefined), params)
  }

  // ---------------------------------------------------------------------------
  // Properties of the URL resolution
  // ---------------------------------------------------------------------------

  /** The string form of an integer holds digits and at most a minus sign. */
  lemma IntStringChars(n: int)
    ensures forall k | 0 <= k < |IntToString(n)| :: IsDigit(IntToString(n)[k]) || IntToString(n)[k] == '-'
  {
    var s := IntToString(n);
    forall k | 0 <= k < |s| ensures IsDigit(s[k]) || s[k] == '-' {
      if s[0] == '-' && k > 0 {
        assert s[k] == s[1..][k - 1];
      }
    }
  }

  /** The string form of an integer shares no character with the token. */
  lemma IntStringDisjoint(n: int)
    ensures Disjoint(IntToString(n), OrgIdKey)
  {
    IntStringChars(n);
  }

  /**
   * With a numeric id every occurrence of the token is replaced by the
   * id's digits, and no occurrence of the token is left.
   */
  lemma NumericIdFillsEveryToken(params: Object, url: string, n: int)
    requires Prop(params, OrgIdKey) == Num(n)
    ensures ChangeUrl(params, url) == Join(SplitOn(url, OrgIdKey), IntToString(n))
    ensures !Contains(ChangeUrl(params, url), OrgIdKey)
  {
    var rep := IntToString(n);
    assert ToString(Num(n)) == rep;
    IntStringDisjoint(n);
    IntStringChars(n);
    JoinAvoids(SplitOn(url, OrgIdKey), rep, OrgIdKey);
  }

  /**
   * With an undefined id, only the first `/organizationId` goes: a template
   * `a + "/organizationId" + b` whose `a` does not hold the segment becomes
   * `a + b`, whatever `b` holds.
   */
  lemma UndefinedIdCutsFirstSegment(params: Object, a: string, b: string)
    requires Prop(params, OrgIdKey) == Undefined
    requires !Contains(a, OrgIdSegment)
    ensures ChangeUrl(params, a + OrgIdSegment + b) == a + b
  {
    var s := a + OrgIdSegment + b;
    var k := |a|;
    assert s[k..k + |OrgIdSegment|] == OrgIdSegment;
    forall j: nat | j < k ensures !OccursAt(s, OrgIdSegment, j) {
      NoSegmentStartsInPrefix(a, b, j);
    }
    assert FirstAt(s, OrgIdSegment, k);
    assert s[..k] == a;
    assert s[k + |OrgIdSegment|..] == b;
  }

  /**
   * No occurrence of the segment starts inside `a`: one ending inside `a`
   * is excluded by assumption, and one reaching past it would need a second
   * '/', since the segment's only '/' is its first character and the copy
   * that follows `a` starts with '/'.
   */
  lemma NoSegmentStartsInPrefix(a: string, b: string, j: nat)
    requires !Contains(a, OrgIdSegment) && j < |a|
    ensures !OccursAt(a + OrgIdSegment + b, OrgIdSegment, j)
  {
    var s := a + OrgIdSegment + b;
    if j + |OrgIdSegment| <= |a| {
      OccursInPrefix(s, OrgIdSegment, |a|, j);
      assert s[..|a|] == a;
      assert !OccursAt(a, OrgIdSegment, j);
    } else if j + |OrgIdSegment| <= |s| {
      var m := |a| - j;
      assert s[|a|] == '/';
      assert s[j..j + |OrgIdSegment|][m] == '/';
      assert OrgIdSegment[m] != '/';
    }
  }

  /** The order matters: resolving the URL after the deletion would cut the segment. */
  lemma OrderOfShapingMatters(params: Object, a: string, b: string)
    requires Truthy(Prop(params, OrgIdKey))
    requires !Contains(a, OrgIdSegment)
    ensures ChangeUrl(DeleteOrgId(params).callerAfter, a + OrgIdSegment + b) == a + b
  {
    UndefinedIdCutsFirstSegment(DeleteOrgId(params).callerAfter, a, b);
  }

  /**
   * An id of 0 is not undefined, so it is written into the URL, and it is
   * falsy, so it also stays in the body: the id is sent twice.
   */
  lemma ZeroIdIsSentTwice(platform: string, params: Object)
    requires Prop(params, OrgIdKey) == Num(0)
    ensures AddCodeValue(platform, params).sent.url == Join(SplitOn(CodeRulePath(platform), OrgIdKey), "0")
    ensures AddCodeValue(platform, params).sent.body.fields[OrgIdKey] == Num(0)
  {
    NumericIdFillsEveryToken(params, CodeRulePath(platform), 0);
    assert IntToString(0) == "0";
  }

  /**
   * `queryDist` never deletes: a numeric id in the parsed parameters fills
   * every token of the URL and is also sent in the query.
   */
  lemma QueryDistSendsIdTwice(platform: string, params: Object, parsed: Object, n: int)
    requires Prop(parsed, OrgIdKey) == Num(n)
    ensures var r := QueryDist(platform, params, parsed);
            && r.sent.url == Join(SplitOn(CodeRulePath(platform) + "/" + ToString(Prop(params, "ruleId")), OrgIdKey),
                                  IntToString(n))
            && !Contains(r.sent.url, OrgIdKey)
            && r.sent.query.Obj? && OrgIdKey in r.sent.query.fields
            && r.sent.query.fields[OrgIdKey] == Num(n)
  {
    NumericIdFillsEveryToken(parsed, CodeRulePath(platform) + "/" + ToString(Prop(params, "ruleId")), n);
  }

  /** A null id is not undefined either: the URL gets the text "null". */
  lemma NullIdWritesNull(params: Object, url: string)
    requires Prop(params, OrgIdKey) == Null
    ensures ChangeUrl(params, url) == Join(SplitOn(url, OrgIdKey), "null")
  {
  }

  /** An id whose string form is `$&` puts each match back: the URL keeps its token. */
  lemma MatchPatternIdKeepsUrl(params: Object, url: string)
    requires Prop(params, OrgIdKey) == Str("$&")
    ensures ChangeUrl(params, url) == url
  {
    ReplaceAllWithMatchIsIdentity(url, OrgIdKey, 0);
    assert url[0..] == url;
  }

  // ---------------------------------------------------------------------------
  // End-to-end scenarios, for any platform prefix without the letter 'z'
  // (such as "/hpfm")
  // ---------------------------------------------------------------------------

  /** A numeric id between two 'z'-free pieces is written in place of the token. */
  lemma NumericIdBetween(params: Object, a: string, b: string, n: int)
    requires Prop(params, OrgIdKey) == Num(n) && 'z' !in a && 'z' !in b
    ensures ChangeUrl(params, a + OrgIdKey + b) == a + IntToString(n) + b
  {
    NumericIdFillsEveryToken(params, a + OrgIdKey + b, n);
    SplitAroundToken(a, b);
    assert Join([a, b], IntToString(n)) == a + IntToString(n) + b;
  }

  /** A numeric id fills the path and, when non-zero, leaves the write body; other fields stay. */
  lemma AddCodeValueWithId(platform: string, params: Object, n: int)
    requires 'z' !in platform && Prop(params, OrgIdKey) == Num(n) && n != 0
    ensures AddCodeValue(platform, params).sent.url == platform + "/v1/" + IntToString(n) + "/code-rule"
    ensures AddCodeValue(platform, params).sent.body == Obj(params - {OrgIdKey})
  {
    var a, b := platform + "/v1/", "/code-rule";
    assert 'z' !in a && 'z' !in b;
    ScopedPathAroundToken(platform, b);
    NumericIdBetween(params, a, b, n);
    var r := AddCodeValue(platform, params);
    assert r.sent.url == ChangeUrl(params, a + OrgIdKey + b);
    assert r.sent.body == Obj(DeleteOrgId(params).sent);
  }

  /** Without an id the segment is cut; parsed params without a truthy id go out as they are. */
  lemma QueryCodeListWithoutId(platform: string, params: Object, parsed: Object)
    requires 'z' !in platform && Prop(params, OrgIdKey) == Undefined
    requires !Truthy(Prop(parsed, OrgIdKey))
    ensures QueryCodeList(platform, params, parsed).sent.url == platform + "/v1" + "/code-rule"
    ensures QueryCodeList(platform, params, parsed).sent.query == Obj(parsed)
  {
    var a, b := platform + "/v1", "/code-rule";
    assert 'z' !in a;
    UndefinedIdWithoutZ(params, a, b);
    DeleteOrgIdKeepsFalsy(parsed);
    var r := QueryCodeList(platform, params, parsed);
    assert r.sent.url == ChangeUrl(params, a + OrgIdSegment + b);
  }

  /** An undefined id cuts the segment after a 'z'-free prefix. */
  lemma UndefinedIdWithoutZ(params: Object, a: string, b: string)
    requires Prop(params, OrgIdKey) == Undefined && 'z' !in a
    ensures ChangeUrl(params, a + OrgIdSegment + b) == a + b
  {
    AbsentByChar(a, OrgIdSegment, 7);
    UndefinedIdCutsFirstSegment(params, a, b);
  }

  /**
   * A batch deletion sends the selected rows exactly, its URL carries the
   * id, and the id is gone from the caller's object.
   */
  lemma DeleteCodeRuleWithId(platform: string, params: Object, n: int)
    requires 'z' !in platform && Prop(params, OrgIdKey) == Num(n) && n != 0
    ensures DeleteCodeRule(platform, params).sent.url == platform + "/v1/" + IntToString(n) + "/code-rule"
    ensures DeleteCodeRule(platform, params).sent.body == Prop(params, SelectedRowsKey)
    ensures DeleteCodeRule(platform, params).callerAfter == params - {OrgIdKey}
  {
    var a, b := platform + "/v1/", "/code-rule";
    assert 'z' !in a && 'z' !in b;
    ScopedPathAroundToken(platform, b);
    NumericIdBetween(params, a, b, n);
    var r := DeleteCodeRule(platform, params);
    assert r.sent.url == ChangeUrl(params, a + OrgIdKey + b);
    assert r.callerAfter == DeleteOrgId(params).callerAfter;
  }

  /**
   * Splitting `a + token + b` when neither side holds a 'z': every
   * occurrence of the token has its 'z' at offset 6, and the only 'z' is
   * the one inside the token between them.
   */
  lemma SplitAroundToken(a: string, b: string)
    requires 'z' !in a && 'z' !in b
    ensures SplitOn(a + OrgIdKey + b, OrgIdKey) == [a, b]
  {
    var s := a + OrgIdKey + b;
    assert OrgIdKey[6] == 'z' && 'z' !in OrgIdKey[..6];
    forall j: nat | j < |a| ensures !OccursAt(s, OrgIdKey, j) {
      if j + |OrgIdKey| <= |s| {
        assert s[j..j + |OrgIdKey|][6] == s[j + 6];
        if j + 6 >= |a| {
          assert s[j + 6] == OrgIdKey[..6][j + 6 - |a|];
        }
      }
    }
    assert OccursAt(s, OrgIdKey, |a|) by {
      assert s[|a|..|a| + |OrgIdKey|] == OrgIdKey;
    }
    assert IndexOf(s, OrgIdKey) == Some(|a|);
    assert s[..|a|] == a;
    assert s[|a| + |OrgIdKey|..] == b;
    AbsentByChar(b, OrgIdKey, 6);
    assert SplitOn(b, OrgIdKey) == [b];
  }
}
