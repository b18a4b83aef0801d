/** What the AWS service tag handlers share (`Aws::Service::Base`): the request
    parameters they read, the span tags they write, and trace-context propagation
    through SNS/SQS message attributes. */
module AwsBase {
  import opened Wrappers

  /** At most this many message attributes may be set on a message. */
  const MessageAttributesLimit: nat := 10

  /** The message attribute that carries the trace context. */
  const PropagationKey: string := "_datadog"

  /** One message attribute: its declared data type and its value. */
  datatype MessageAttribute = MessageAttribute(
    dataType: string,
    stringValue: Option<string>,
    binaryValue: Option<string>)

  type MessageAttributes = map<string, MessageAttribute>

  /** The request parameters (`context.params`) the handlers read or write. */
  datatype Params = Params(
    topicArn: Option<string>,
    name: Option<string>,
    queueUrl: Option<string>,
    queueName: Option<string>,
    messageAttributes: Option<MessageAttributes>)

  /** The AWS SDK operation being traced (`context.operation`). */
  datatype Operation =
    | Publish
    | PublishBatch
    | SendMessage
    | SendMessageBatch
    | ReceiveMessage
    | OtherOperation    // every operation not listed above

  /** The integration settings the handlers consult. */
  datatype Config = Config(propagation: bool, batchPropagation: bool, parentageStyle: string)

  /** What `Contrib.inject(trace.to_digest, data)` does for the active trace: whether
      it reports success, and the JSON text of the carrier it filled. The propagation
      code itself is not part of this model; it is taken to answer the same way each
      time it is asked about the same trace. */
  datatype Injection = Injection(injected: bool, payload: string)

  /** The span tags the handlers set. */
  datatype Tag = AwsAccount | TopicName | QueueName

  /** The tags set on a span: the map records the last value passed to `set_tag` for
      each tag, with `None` standing for `nil`. */
  type SpanTags = map<Tag, Option<string>>

  /** The message attributes, a missing map read as empty. */
  function AttributesOf(p: Params): (m: MessageAttributes)
  {
    p.messageAttributes.GetOr(map[])
  }

  /** The attribute written for an injected trace context. */
  function PropagationAttribute(inj: Injection, dataType: string): (a: MessageAttribute)
  {
    MessageAttribute(dataType, None, Some(inj.payload))
  }

  /** Every key of `before` other than `key` is still in `after` with the same value. */
  ghost predicate KeepsOtherKeys(before: MessageAttributes, after: MessageAttributes, key: string)
  {
    forall k :: k in before && k != key ==> k in after && after[k] == before[k]
  }

  /** `inject_propagation(trace, context, data_type)`. A missing attribute map is set to
      an empty one first; then, below the limit and when injection succeeds, the
      trace context is stored under `_datadog` with the given data type. */
  function InjectPropagation(p: Params, inj: Injection, dataType: string): (r: Params)
    // only the message attributes can change, and afterwards they are always present
    ensures r == p.(messageAttributes := r.messageAttributes)
    ensures r.messageAttributes.Some?
    // at or above the limit, or when injection fails, the attributes are left as they were
    ensures |AttributesOf(p)| >= MessageAttributesLimit || !inj.injected ==>
              AttributesOf(r) == AttributesOf(p)
    // otherwise exactly `_datadog` is added or overwritten
    ensures |AttributesOf(p)| < MessageAttributesLimit && inj.injected ==>
              && AttributesOf(r).Keys == AttributesOf(p).Keys + {PropagationKey}
              && KeepsOtherKeys(AttributesOf(p), AttributesOf(r), PropagationKey)
              && AttributesOf(r)[PropagationKey] == PropagationAttribute(inj, dataType)
    // injection never takes a map over the limit
    ensures |AttributesOf(p)| <= MessageAttributesLimit ==> |AttributesOf(r)| <= MessageAttributesLimit
    ensures |AttributesOf(r)| <= |AttributesOf(p)| + 1
  {
    var attrs := AttributesOf(p);
    var initialised := p.(messageAttributes := Some(attrs));
    if |attrs| >= MessageAttributesLimit then initialised
    else if inj.injected then
      initialised.(messageAttributes := Some(attrs[PropagationKey := PropagationAttribute(inj, dataType)]))
    else initialised
  }

  /** Injecting twice in a row is the same as injecting once. */
  lemma InjectPropagationIdempotent(p: Params, inj: Injection, dataType: string)
    ensures InjectPropagation(InjectPropagation(p, inj, dataType), inj, dataType)
            == InjectPropagation(p, inj, dataType)
  {
    var once := InjectPropagation(p, inj, dataType);
    if |AttributesOf(p)| < MessageAttributesLimit && inj.injected {
      var m := AttributesOf(once);
      if |m| < MessageAttributesLimit {
        assert m[PropagationKey := PropagationAttribute(inj, dataType)] == m;
      }
    }
  }

  /** The attribute map is left as it was (also when it was present) in every case where
      no `_datadog` entry is written. */
  lemma InjectWithoutWriteKeepsParams(p: Params, inj: Injection, dataType: string)
    requires p.messageAttributes.Some?
    requires |AttributesOf(p)| >= MessageAttributesLimit || !inj.injected
    ensures InjectPropagation(p, inj, dataType) == p
  {
  }

  /** `extract_propagation!(context)`: the `_datadog` attribute handed to the propagation
      code to continue the trace, or `None` when there is nothing to continue. */
  function ExtractPropagation(p: Params): (r: Option<MessageAttribute>)
    ensures r.Some? <==> p.messageAttributes.Some? && PropagationKey in p.messageAttributes.value
    ensures r.Some? ==> r.value == AttributesOf(p)[PropagationKey]
  {
    match p.messageAttributes
    case None => None
    case Some(attrs) => if PropagationKey in attrs then Some(attrs[PropagationKey]) else None
  }

  /** What one handler injects into the params is extracted again from those same params,
      as long as they were below the attribute limit and injection succeeded. */
  lemma InjectThenExtract(p: Params, inj: Injection, dataType: string)
    requires |AttributesOf(p)| < MessageAttributesLimit && inj.injected
    ensures ExtractPropagation(InjectPropagation(p, inj, dataType))
            == Some(PropagationAttribute(inj, dataType))
  {
  }
}
