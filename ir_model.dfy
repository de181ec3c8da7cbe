/** The data model of the gateway's intermediate representation (IR): the tree a
    resolver compiles to, the upstream calls (IO) it contains, and the small
    identifier newtypes that go with them. Payloads that belong to other parts
    of the gateway are kept abstract. */
module IrModel {

  // Payloads owned by other parts of the gateway; only their identity matters here.
  type DynamicValue(!new)
  type Auth(!new)
  type Discriminator(!new)
  type GroupBy(!new)
  type WorkerHooks(!new)
  type HttpRequestTemplate(!new)
  type GraphQLRequestTemplate(!new)
  type GrpcRequestTemplate(!new)

  datatype Option<+T> = None | Some(value: T)

  const TWO_TO_THE_64: int := 0x1_0000_0000_0000_0000

  /** Rust's `usize`, taken to be 64 bits wide. */
  type Usize = n: int | 0 <= n < TWO_TO_THE_64

  /** Rust's `u64`. */
  type U64 = n: int | 0 <= n < TWO_TO_THE_64

  /** Rust's `NonZeroU64`, the type of a cache's max age. */
  type MaxAge = n: int | 0 < n < TWO_TO_THE_64 witness 1

  /** Identifies the data loader that batches an IO's requests. */
  datatype DataLoaderId = DataLoaderId(raw: Usize)
  {
    function AsUsize(): (n: Usize)
      ensures DataLoaderId(n) == this
    {
      raw
    }
  }

  function NewDataLoaderId(id: Usize): (d: DataLoaderId)
    ensures d.AsUsize() == id
  {
    DataLoaderId(id)
  }

  /** The cache key of one IO. */
  datatype IoId = IoId(raw: U64)
  {
    function AsU64(): (n: U64)
      ensures IoId(n) == this
    {
      raw
    }
  }

  function NewIoId(id: U64): (i: IoId)
    ensures i.AsU64() == id
  {
    IoId(id)
  }

  /** An upstream call: HTTP, GraphQL, gRPC, or a JavaScript worker function. */
  datatype IO =
    | Http(httpTemplate: HttpRequestTemplate, groupBy: Option<GroupBy>, dlId: Option<DataLoaderId>,
           isList: bool, dedupe: bool, hook: Option<WorkerHooks>)
    | GraphQL(graphqlTemplate: GraphQLRequestTemplate, fieldName: string, batch: bool,
              dlId: Option<DataLoaderId>, dedupe: bool)
    | Grpc(grpcTemplate: GrpcRequestTemplate, groupBy: Option<GroupBy>, dlId: Option<DataLoaderId>,
           dedupe: bool, hook: Option<WorkerHooks>)
    | Js(name: string)
  {
    /** Whether identical in-flight requests of this IO are to be shared.
        JavaScript calls are never deduplicated. */
    function Dedupe(): (r: bool)
      ensures r <==> !Js? && dedupe
    {
      match this
      case Http(_, _, _, _, d, _) => d
      case GraphQL(_, _, _, _, d) => d
      case Grpc(_, _, _, d, _) => d
      case Js(_) => false
    }
  }

  /** The cache key of an IO in an evaluation context of type Ctx. The three
      request templates compute their own keys; those computations are passed
      in. A JavaScript call has no cache key. */
  function CacheKey<Ctx>(io: IO, ctx: Ctx,
                         httpKey: (HttpRequestTemplate, Ctx) -> Option<IoId>,
                         grpcKey: (GrpcRequestTemplate, Ctx) -> Option<IoId>,
                         graphqlKey: (GraphQLRequestTemplate, Ctx) -> Option<IoId>): (k: Option<IoId>)
    ensures io.Js? ==> k == None
    ensures io.Http? ==> k == httpKey(io.httpTemplate, ctx)
    ensures io.Grpc? ==> k == grpcKey(io.grpcTemplate, ctx)
    ensures io.GraphQL? ==> k == graphqlKey(io.graphqlTemplate, ctx)
  {
    match io
    case Http(t, _, _, _, _, _) => httpKey(t, ctx)
    case Grpc(t, _, _, _, _) => grpcKey(t, ctx)
    case GraphQL(t, _, _, _, _) => graphqlKey(t, ctx)
    case Js(_) => None
  }

  /** The IR tree. `Cache` and `Map` carry the fields of the source's structs
      of the same names. */
  datatype IR =
    | Dynamic(value: DynamicValue)
    | IO(io: IO)
    | Cache(maxAge: MaxAge, io: IO)
    | Path(inner: IR, path: seq<string>)
    | ContextPath(path: seq<string>)
    | Protect(auth: Auth, inner: IR)
    | Map(input: IR, mapping: map<string, string>)
    | Pipe(first: IR, second: IR)
      /** Merges the results of several IRs. */
    | Merge(irs: seq<IR>)
    | Discriminate(discriminator: Discriminator, inner: IR)
      /** Apollo Federation `_entities` resolver. */
    | Entity(entities: map<string, IR>)
      /** Apollo Federation `_service` resolver. */
    | Service(sdl: string)
  {
    /** Runs `next` on the result of this IR. */
    function PipeWith(next: IR): (r: IR)
      ensures r.Pipe? && r.first == this && r.second == next
    {
      Pipe(this, next)
    }
  }
}
