/** Nuke's resumable downloads: what is kept of an interrupted download, and why resuming it never
    mixes two versions of a resource. */
module Resumable {
  import opened Entries

  type Url = string
  type Validator = string

  /** One version of a resource as its server knows it. */
  datatype Version = Version(etag: Option<Validator>, lastModified: Option<Validator>, body: seq<Byte>)

  datatype Headers = Headers(acceptRanges: Option<string>, etag: Option<Validator>, etagMisspelt: Option<Validator>,
                             lastModified: Option<Validator>)

  datatype Response = Response(status: nat, headers: Headers)

  datatype ResumableData = ResumableData(data: seq<Byte>, validator: Validator)

  /** "Range: bytes=from-" and "If-Range: validator". */
  datatype Request = Request(range: Option<nat>, ifRange: Option<Validator>)

  // ----- The server -----

  ghost predicate Names(v: Version, s: Validator) {
    v.etag == Some(s) || v.lastModified == Some(s)
  }

  /** Strong validators: versions that share one are byte for byte the same. */
  ghost predicate Strong(versions: set<Version>) {
    forall v, w, s :: v in versions && w in versions && Names(v, s) && Names(w, s) ==> v.body == w.body
  }

  /** The headers of a response may leave validators out, but not make them up. */
  ghost predicate Honest(h: Headers, v: Version) {
    && (h.etag.Some? ==> h.etag == v.etag) && (h.etagMisspelt.Some? ==> h.etagMisspelt == v.etag)
    && (h.lastModified.Some? ==> h.lastModified == v.lastModified)
  }

  /** What a server that follows RFC 7233 (sections 3.1, 3.2, 4.1 and 4.4) may answer from its current
      version: the rest of the body if the condition names this version and the range is satisfiable,
      the whole body if there is no range or the condition fails, or an error of its own. */
  ghost predicate Answers(v: Version, request: Request, r: Response, body: seq<Byte>) {
    && Honest(r.headers, v)
    && match r.status
       case 200 => body == v.body
       case 206 => request.range.Some? && request.ifRange.Some? && Names(v, request.ifRange.value) &&
                   request.range.value < |v.body| && body == v.body[request.range.value..]
       case _ => true
  }

  // ----- What is kept -----

  /** ETag first, in either spelling, then Last-Modified. */
  function ValidatorOf(h: Headers): Option<Validator> {
    if h.etag.Some? then h.etag else if h.etagMisspelt.Some? then h.etagMisspelt else h.lastModified
  }

  /** The source compares the header without regard to case. */
  predicate IsBytes(s: string) {
    |s| == 5 && (s[0] == 'b' || s[0] == 'B') && (s[1] == 'y' || s[1] == 'Y') && (s[2] == 't' || s[2] == 'T') &&
    (s[3] == 'e' || s[3] == 'E') && (s[4] == 's' || s[4] == 'S')
  }

  /** The failable initializer. */
  function Keep(response: Response, data: seq<Byte>): (r: Option<ResumableData>)
    ensures r.Some? ==> r.value.data == data != [] && (response.status == 200 || response.status == 206)
  {
    var h := response.headers;
    if data != [] && (response.status == 200 || response.status == 206) &&
       h.acceptRanges.Some? && IsBytes(h.acceptRanges.value) && ValidatorOf(h).Some?
    then Some(ResumableData(data, ValidatorOf(h).value))
    else None
  }

  /** What is stored for a resource is the beginning of a version that its validator names. */
  ghost predicate GoodData(versions: set<Version>, d: ResumableData) {
    exists v :: v in versions && Names(v, d.validator) && d.data != [] && d.data <= v.body
  }

  // ----- One download -----

  /** The download's context, and, to state what it means, the version that answered and what of its
      answer is still to come. */
  datatype Context = Context(url: Url, data: seq<Byte>, urlResponse: Option<Response>,
                             resumableData: Option<ResumableData>, response: Response, version: Version,
                             coming: seq<Byte>)

  ghost predicate GoodContext(versions: Url -> set<Version>, c: Context) {
    && c.version in versions(c.url) && Honest(c.response.headers, c.version)
    && (c.urlResponse.Some? ==> c.urlResponse == Some(c.response) && c.resumableData == None)
    && (c.urlResponse.None? ==> c.data == [])
    && match c.response.status
       case 200 => c.data + c.coming == c.version.body
       case 206 =>
         if c.urlResponse.None? then
           c.resumableData.Some? && c.resumableData.value.data != [] &&
           c.resumableData.value.data + c.coming == c.version.body
         else c.data + c.coming == c.version.body
       case _ => true
  }

  class Loader {
    /** Every version each resource ever has. */
    ghost const versions: Url -> set<Version>
    const isResumableDataEnabled: bool
    var cache: map<Url, ResumableData>
    var tasks: map<nat, Context>

    constructor (ghost versions: Url -> set<Version>, enabled: bool)
      requires forall url :: Strong(versions(url))
      ensures Valid() && cache == map[] && tasks == map[] && this.versions == versions
    {
      this.versions, isResumableDataEnabled, cache, tasks := versions, enabled, map[], map[];
    }

    ghost predicate Valid()
      reads this
    {
      && (forall url :: Strong(versions(url)))
      && (forall url :: url in cache ==> GoodData(versions(url), cache[url]))
      && (forall id :: id in tasks ==> GoodContext(versions, tasks[id]))
    }

    /** Starts a download. Stored data is taken out of the cache, and asks for the rest on condition
        that nothing changed. */
    method Start(id: nat, url: Url, v: Version, response: Response, body: seq<Byte>) returns (request: Request)
      requires Valid() && id !in tasks && v in versions(url)
      requires var r := if isResumableDataEnabled && url in cache
                        then Request(Some(|cache[url].data|), Some(cache[url].validator)) else Request(None, None);
               Answers(v, r, response, body)
      modifies this
      ensures Valid() && tasks.Keys == old(tasks).Keys + {id}
      ensures request == if isResumableDataEnabled && url in old(cache)
                         then Request(Some(|old(cache)[url].data|), Some(old(cache)[url].validator))
                          else Request(None, None)
    {
      request := Request(None, None);
      var resumable: Option<ResumableData> := None;
      if isResumableDataEnabled && url in cache {
        var d := cache[url];
        cache := cache - {url};
        request := Request(Some(|d.data|), Some(d.validator));
        resumable := Some(d);
        Resumes(versions(url), d, v);
      }
      var c := Context(url, [], None, resumable, response, v, body);
      assert [] + body == body;
      tasks := tasks[id := c];
    }

    /** A version that the stored validator names starts with the stored data. */
    lemma Resumes(vs: set<Version>, d: ResumableData, v: Version)
      requires Strong(vs) && GoodData(vs, d) && v in vs
      ensures Names(v, d.validator) ==>
              d.data + v.body[if |d.data| <= |v.body| then |d.data| else 0..] == v.body && d.data != []
    {
    }

    /** Data arrives. On the first piece the server's decision is looked at. */
    method DidReceiveData(id: nat, n: nat)
      requires Valid() && id in tasks && n <= |tasks[id].coming|
      modifies this`tasks
      ensures Valid() && tasks.Keys == old(tasks).Keys && tasks[id].urlResponse.Some?
      ensures tasks[id].coming == old(tasks[id].coming)[n..]
    {
      var c := tasks[id];
      var chunk := c.coming[..n];
      assert chunk + c.coming[n..] == c.coming;
      if c.urlResponse == None {
        if c.resumableData.Some? && c.response.status == 206 {
          c := c.(data := c.resumableData.value.data);
        }
        c := c.(resumableData := None);
      }
      assert c.data + c.coming == c.data + chunk + c.coming[n..];
      c := c.(data := c.data + chunk, urlResponse := Some(c.response), coming := c.coming[n..]);
      tasks := tasks[id := c];
    }

    /** The download fails or is cancelled: what arrived is kept, if it can be resumed. */
    method DidFail(id: nat)
      requires Valid() && id in tasks
      modifies this
      ensures Valid() && tasks == old(tasks) - {id}
      ensures var c := old(tasks[id]);
        cache == if isResumableDataEnabled && c.urlResponse.Some? && Keep(c.response, c.data).Some?
                 then old(cache)[c.url := Keep(c.response, c.data).value] else old(cache)
    {
      var c := tasks[id];
      tasks := tasks - {id};
      if isResumableDataEnabled && c.urlResponse.Some? && c.data != [] {
        var kept := Keep(c.urlResponse.value, c.data);
        if kept.Some? {
          KeptIsGood(c);
          cache := cache[c.url := kept.value];
        }
      }
    }

    lemma KeptIsGood(c: Context)
      requires GoodContext(versions, c) && c.urlResponse.Some? && Keep(c.response, c.data).Some?
      ensures GoodData(versions(c.url), Keep(c.response, c.data).value)
    {
      assert c.data <= c.version.body;
      assert Names(c.version, Keep(c.response, c.data).value.validator);
    }

    /** The download ends without an error, all of the answer having arrived. What is delivered is one
        whole version, resumed or not. */
    method DidFinish(id: nat) returns (data: Option<seq<Byte>>)
      requires Valid() && id in tasks && tasks[id].coming == [] && tasks[id].urlResponse.Some?
      modifies this`tasks
      ensures Valid() && tasks == old(tasks) - {id}
      ensures data == if old(tasks[id].data) == [] then None else Some(old(tasks[id].data))
      ensures var c := old(tasks[id]);
        data.Some? && (c.response.status == 200 || c.response.status == 206) ==> data.value == c.version.body
    {
      var c := tasks[id];
      tasks := tasks - {id};
      assert c.data + [] == c.data;
      data := if c.data == [] then None else Some(c.data);
    }

    /** The memory cache drops what it likes. */
    method Evict(url: Url)
      requires Valid()
      modifies this`cache
      ensures Valid() && cache == old(cache) - {url}
    {
      cache := cache - {url};
    }
  }
}
