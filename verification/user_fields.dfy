/**
 The user entity as both user services build it, and the partial update both
 of them apply: only truthy fields are written, `updatedAt` always is.
 */
module UserFields {
  import opened Wrappers
  import opened Values

  /** The GraphQL `UserStatus` enumeration. */
  datatype UserStatus = ACTIVE | INACTIVE | PENDING
  {
    function Name(): string
    {
      match this
      case ACTIVE => "ACTIVE"
      case INACTIVE => "INACTIVE"
      case PENDING => "PENDING"
    }
  }

  /** The record `createUser` builds and returns. */
  datatype User = User(id: string, name: string, email: string, status: UserStatus,
                       createdAt: string, updatedAt: string)

  /** The user `createUser` builds: status ACTIVE, the two clock readings as
      creation and update time. */
  function NewUser(id: string, name: string, email: string, createdAt: string, updatedAt: string): User
  {
    User(id, name, email, ACTIVE, createdAt, updatedAt)
  }

  /** `{ name?, email?, status? }`: the fields `updateUser` may change. */
  datatype UpdateInput = UpdateInput(name: Option<string>, email: Option<string>, status: Option<string>)

  /** `if (input.field)`: supplied and not the empty string. */
  predicate Supplied(field: Option<string>)
  {
    field.Some? && field.value != ""
  }

  /** Some field besides `updatedAt` is supplied. Only then is the request's
      `ExpressionAttributeNames` map non-empty; DynamoDB rejects an update
      whose `ExpressionAttributeNames` is empty. */
  predicate NamesAField(input: UpdateInput)
  {
    Supplied(input.name) || Supplied(input.email) || Supplied(input.status)
  }

  /** The attributes an update may write. */
  const UPDATABLE: set<string> := {"name", "email", "status", "updatedAt"}

  /** The `SET` clause of the update: one assignment per supplied field, and
      always `updatedAt = now`. */
  function SetClause(input: UpdateInput, now: string): (sets: Item)
    ensures forall a :: a in sets ==> a in UPDATABLE
    ensures "updatedAt" in sets && sets["updatedAt"] == Str(now)
    ensures "name" in sets <==> Supplied(input.name)
    ensures "email" in sets <==> Supplied(input.email)
    ensures "status" in sets <==> Supplied(input.status)
    ensures Supplied(input.name) ==> sets["name"] == Str(input.name.value)
    ensures Supplied(input.email) ==> sets["email"] == Str(input.email.value)
    ensures Supplied(input.status) ==> sets["status"] == Str(input.status.value)
  {
    var withName := if Supplied(input.name) then map["name" := Str(input.name.value)] else map[];
    var withEmail := if Supplied(input.email) then withName["email" := Str(input.email.value)] else withName;
    var withStatus := if Supplied(input.status) then withEmail["status" := Str(input.status.value)] else withEmail;
    withStatus["updatedAt" := Str(now)]
  }

  /** The item after `SET` is applied to `before`: supplied fields and
      `updatedAt` are overwritten, every other attribute is kept as it was. */
  function ApplyUpdate(before: Item, input: UpdateInput, now: string): (after: Item)
    ensures Get(after, "updatedAt") == Some(Str(now))
    ensures Supplied(input.name) ==> Get(after, "name") == Some(Str(input.name.value))
    ensures Supplied(input.email) ==> Get(after, "email") == Some(Str(input.email.value))
    ensures Supplied(input.status) ==> Get(after, "status") == Some(Str(input.status.value))
    ensures !Supplied(input.name) ==> Get(after, "name") == Get(before, "name")
    ensures !Supplied(input.email) ==> Get(after, "email") == Get(before, "email")
    ensures !Supplied(input.status) ==> Get(after, "status") == Get(before, "status")
    ensures forall a :: a !in UPDATABLE ==> (a in after <==> a in before)
    ensures forall a :: a !in UPDATABLE && a in before ==> after[a] == before[a]
  {
    before + SetClause(input, now)
  }
}
