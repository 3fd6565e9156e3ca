/** How a Pub/Sub listener finds its subscription: the three optional
    constructor arguments, the environment fallback used only when all three
    are absent, the resolution into a fully-qualified subscription path, and
    the ValueError raised when nothing resolves. Both listener files carry the
    same code for this. */
module Subscription {
  import opened Common

  /** `SubscriberClient.subscription_path(project, subscription)`. */
  function SubscriptionPath(project: string, subscription: string): string {
    "projects/" + project + "/subscriptions/" + subscription
  }

  /** `_resolve_subscription_path`: a subscription that already starts with
      "projects/" is used as given; a short subscription name is qualified
      with the project; otherwise project and subscription id are combined;
      otherwise there is no path. */
  function ResolveSubscriptionPath(subscription: Option<string>, projectId: Option<string>, subscriptionId: Option<string>)
    : (r: Option<string>)
    ensures r.Some? ==> StartsWith(r.value, "projects/")
    ensures Truthy(subscription) && StartsWith(subscription.value, "projects/") ==> r == subscription
    ensures Truthy(subscription) && !StartsWith(subscription.value, "projects/") && Truthy(projectId) ==>
      r == Some(SubscriptionPath(projectId.value, subscription.value))
    ensures (!Truthy(subscription) || (!StartsWith(subscription.value, "projects/") && !Truthy(projectId))) ==>
      r == (if Truthy(projectId) && Truthy(subscriptionId)
            then Some(SubscriptionPath(projectId.value, subscriptionId.value)) else None)
    ensures r.None? <==>
      !(Truthy(subscription) && StartsWith(subscription.value, "projects/")) &&
      !(Truthy(projectId) && (Truthy(subscription) || Truthy(subscriptionId)))
  {
    if Truthy(subscription) && StartsWith(subscription.value, "projects/") then subscription
    else if Truthy(subscription) && Truthy(projectId) then
      Some(SubscriptionPath(projectId.value, subscription.value))
    else if Truthy(projectId) && Truthy(subscriptionId) then
      Some(SubscriptionPath(projectId.value, subscriptionId.value))
    else None
  }

  /** A short subscription name without a project resolves to nothing, even
      when a subscription id is given. */
  lemma ShortNameNeedsProject(name: string, subscriptionId: Option<string>)
    requires name != "" && !StartsWith(name, "projects/")
    ensures ResolveSubscriptionPath(Some(name), None, subscriptionId).None?
  {
  }

  /** The three constructor arguments. */
  datatype ListenerArgs = ListenerArgs(subscription: Option<string>, projectId: Option<string>, subscriptionId: Option<string>)

  /** The arguments after the environment fallback: the variables
      PUBSUB_SUBSCRIPTION, GCP_PROJECT_ID and PUBSUB_SUBSCRIPTION_ID replace
      the arguments only when all three arguments are None. */
  function EffectiveArgs(args: ListenerArgs, env: Environment): (r: ListenerArgs)
    ensures (args.subscription.Some? || args.projectId.Some? || args.subscriptionId.Some?) ==> r == args
    ensures (args.subscription.None? && args.projectId.None? && args.subscriptionId.None?) ==>
      r == ListenerArgs(GetEnv(env, "PUBSUB_SUBSCRIPTION"), GetEnv(env, "GCP_PROJECT_ID"),
                        GetEnv(env, "PUBSUB_SUBSCRIPTION_ID"))
  {
    if args.subscription.None? && args.projectId.None? && args.subscriptionId.None? then
      ListenerArgs(GetEnv(env, "PUBSUB_SUBSCRIPTION"), GetEnv(env, "GCP_PROJECT_ID"), GetEnv(env, "PUBSUB_SUBSCRIPTION_ID"))
    else args
  }

  datatype ConfigError = SubscriptionNotProvided

  /** The part of the listener constructor that can fail: the subscription
      path it keeps, or the ValueError it raises when no path resolves. */
  function ConfigureListener(args: ListenerArgs, env: Environment): (r: Result<string, ConfigError>)
    ensures r.Ok? ==> StartsWith(r.value, "projects/")
    ensures r.Ok? ==>
      Some(r.value) == ResolveSubscriptionPath(EffectiveArgs(args, env).subscription, EffectiveArgs(args, env).projectId,
                                               EffectiveArgs(args, env).subscriptionId)
    ensures r.Err? <==>
      ResolveSubscriptionPath(EffectiveArgs(args, env).subscription, EffectiveArgs(args, env).projectId,
                              EffectiveArgs(args, env).subscriptionId).None?
  {
    var a := EffectiveArgs(args, env);
    match ResolveSubscriptionPath(a.subscription, a.projectId, a.subscriptionId)
    case Some(path) => Ok(path)
    case None => Err(SubscriptionNotProvided)
  }

  /** When any argument is given, the environment plays no part. */
  lemma EnvironmentIgnoredWhenArgsGiven(args: ListenerArgs, env1: Environment, env2: Environment)
    requires args.subscription.Some? || args.projectId.Some? || args.subscriptionId.Some?
    ensures ConfigureListener(args, env1) == ConfigureListener(args, env2)
  {
  }

  /** An explicitly empty argument still blocks the fallback: with
      subscription "" and nothing else, construction fails whatever the
      environment holds. */
  lemma EmptyArgumentBlocksFallback(env: Environment)
    ensures ConfigureListener(ListenerArgs(Some(""), None, None), env).Err?
  {
  }
}
