/**
 * The authentication hooks the server's transports use. The middlewares themselves
 * live outside the modelled file, so each is an opaque tag.
 */
module Auth {

  /** gRPC unary interceptors: the real user-header one and the fake one. */
  datatype UnaryInterceptor = ServerUserHeaderInterceptor | FakeGrpcAuthUnaryMiddleware

  /** gRPC stream interceptors: the real user-header one and the fake one. */
  datatype StreamInterceptor = StreamServerUserHeaderInterceptor | FakeGrpcAuthStreamMiddleware

  /** HTTP middlewares: the real AuthenticateUser one and the fake one. */
  datatype HttpMiddleware = AuthenticateUser | FakeHttpAuthMiddleware

  /** The three hooks chosen together. */
  datatype Bundle = Bundle(unary: UnaryInterceptor, stream: StreamInterceptor, http: HttpMiddleware)
  {
    predicate IsReal()
    {
      unary == ServerUserHeaderInterceptor && stream == StreamServerUserHeaderInterceptor
      && http == AuthenticateUser
    }

    predicate IsFake()
    {
      unary == FakeGrpcAuthUnaryMiddleware && stream == FakeGrpcAuthStreamMiddleware
      && http == FakeHttpAuthMiddleware
    }
  }

  /**
   * The hooks selected by the auth_enabled setting: all three real ones when it is
   * set, all three fake ones when it is not, and never a mixture.
   */
  function Select(authEnabled: bool): (b: Bundle)
    ensures b.IsReal() <==> authEnabled
    ensures b.IsFake() <==> !authEnabled
  {
    if authEnabled then
      Bundle(ServerUserHeaderInterceptor, StreamServerUserHeaderInterceptor, AuthenticateUser)
    else
      Bundle(FakeGrpcAuthUnaryMiddleware, FakeGrpcAuthStreamMiddleware, FakeHttpAuthMiddleware)
  }

  /** No selected bundle mixes real and fake hooks: each hook is real exactly when the others are. */
  lemma SelectionNeverMixed(authEnabled: bool)
    ensures var b := Select(authEnabled);
      (b.unary == ServerUserHeaderInterceptor) == (b.stream == StreamServerUserHeaderInterceptor)
      && (b.stream == StreamServerUserHeaderInterceptor) == (b.http == AuthenticateUser)
  {
  }
}
