/** RequestHandlerBuilder.java: optional settings, each replaced by its
    default when `build` creates the handler. */
module HandlerBuilding {
  import opened Common
  import opened ServiceLocation
  import opened ContentTypes
  import opened RequestHandling

  /** `200 * 1024`, the frame limit when none is set. */
  const DEFAULT_MAX_FRAME_SIZE: JavaInt := 200 * 1024

  /** The value `build` passes on: the configured one, or the default. */
  function OrDefault<X>(configured: Option<X>, default: X): (x: X)
    ensures configured.Some? ==> x == configured.value
    ensures configured.None? ==> x == default
  {
    if configured.Some? then configured.value else default
  }

  /** `RequestHandlerBuilder`: the nullable settings. The default service
      locator and the request marshallers come from outside the model and
      are given to the builder when it is made. */
  class RequestHandlerBuilder<T> {
    var serviceLocator: Option<string -> Result<ServiceDescriptor>>
    var contentTypeLookup: Option<Option<string> -> Result<GrpcWebContentType>>
    var maxFrameSize: Option<JavaInt>
    const defaultServiceLocator: string -> Result<ServiceDescriptor>
    const parsers: MethodDescriptor -> seq<byte> -> Result<T>

    /** A builder with nothing set. */
    constructor (defaultServiceLocator: string -> Result<ServiceDescriptor>, parsers: MethodDescriptor -> seq<byte> -> Result<T>)
      ensures serviceLocator.None? && contentTypeLookup.None? && maxFrameSize.None?
      ensures this.defaultServiceLocator == defaultServiceLocator && this.parsers == parsers
    {
      serviceLocator := None;
      contentTypeLookup := None;
      maxFrameSize := None;
      this.defaultServiceLocator := defaultServiceLocator;
      this.parsers := parsers;
    }

    /** `setServiceLocator`: this setting only, and the same builder back. */
    method SetServiceLocator(locate: string -> Result<ServiceDescriptor>) returns (b: RequestHandlerBuilder<T>)
      modifies this`serviceLocator
      ensures b == this && serviceLocator == Some(locate)
    {
      serviceLocator := Some(locate);
      b := this;
    }

    /** `setContentTypeLookup`: this setting only, and the same builder back. */
    method SetContentTypeLookup(lookup: Option<string> -> Result<GrpcWebContentType>) returns (b: RequestHandlerBuilder<T>)
      modifies this`contentTypeLookup
      ensures b == this && contentTypeLookup == Some(lookup)
    {
      contentTypeLookup := Some(lookup);
      b := this;
    }

    /** `setMaxFrameSize`: this setting only, and the same builder back. */
    method SetMaxFrameSize(size: JavaInt) returns (b: RequestHandlerBuilder<T>)
      modifies this`maxFrameSize
      ensures b == this && maxFrameSize == Some(size)
    {
      maxFrameSize := Some(size);
      b := this;
    }

    /** `build`: a new handler with every unset setting at its default. */
    method Build() returns (h: RequestHandler<T>)
      ensures fresh(h)
      ensures h.serviceLocator == OrDefault(serviceLocator, defaultServiceLocator)
      ensures h.contentTypeLookup == OrDefault(contentTypeLookup, Lookup)
      ensures h.maxFrameSize == OrDefault(maxFrameSize, DEFAULT_MAX_FRAME_SIZE)
      ensures h.parsers == parsers
    {
      var locate := if serviceLocator.Some? then serviceLocator.value else defaultServiceLocator;
      var lookup := if contentTypeLookup.Some? then contentTypeLookup.value else Lookup;
      var size := if maxFrameSize.Some? then maxFrameSize.value else DEFAULT_MAX_FRAME_SIZE;
      h := new RequestHandler(locate, lookup, parsers, size);
    }
  }

  // ------------------------------------------------------------ properties

  /** A fresh builder builds the defaults: the default lookup and a frame
      limit of 204800 bytes; the last setter call wins. */
  method DefaultsAndOverrides<T>(locate: string -> Result<ServiceDescriptor>, parsers: MethodDescriptor -> seq<byte> -> Result<T>,
                                 first: JavaInt, second: JavaInt)
    returns (defaults: RequestHandler<T>, configured: RequestHandler<T>)
    ensures defaults.maxFrameSize == 204800 && defaults.contentTypeLookup == Lookup
    ensures defaults.serviceLocator == locate
    ensures configured.maxFrameSize == second && configured.contentTypeLookup == Lookup
  {
    var builder := new RequestHandlerBuilder(locate, parsers);
    defaults := builder.Build();
    var b1 := builder.SetMaxFrameSize(first);
    var b2 := b1.SetMaxFrameSize(second);
    configured := b2.Build();
  }
}
