/** The record store behind the backend routes: one JSON document per person, named after
    the person's id, plus one optional tree-metadata document. Reading a missing document
    yields nothing and deleting one is a no-op. */
module Storage {
  import opened Collections
  import opened Persons

  /** The `error.code` values the routes answer with. */
  datatype ErrorCode =
    | ValidationError
    | PersonNotFound
    | ParentNotFound
    | ChildNotFound
    | TooManyParents
    | RelationshipExists
    | RelationshipNotExists
    | CircularRelationship
    | InvalidDeletionStrategy
    | TreeAlreadyExists

  datatype Result<T> = Ok(value: T) | Err(code: ErrorCode)

  class Store {
    /** The `persons/<id>.json` documents, by file name. */
    var persons: map<Id, Person>
    /** The `familyTree.json` document. */
    var tree: Option<FamilyTree>

    /** Every document is filed under its own record's id. */
    ghost predicate Valid()
      reads this
    {
      KeyedById(persons)
    }

    constructor()
      ensures persons == map[] && tree == None
      ensures Valid()
    {
      persons := map[];
      tree := None;
    }

    /** `readJSON('persons/<id>.json')`. */
    method Read(id: Id) returns (r: Option<Person>)
      ensures r.None? <==> id !in persons
      ensures r.Some? ==> r.value == persons[id]
    {
      r := if id in persons then Some(persons[id]) else None;
    }

    /** `writeJSON('persons/<id>.json', p)`. */
    method Write(id: Id, p: Person)
      modifies this
      ensures persons == old(persons)[id := p] && tree == old(tree)
      ensures old(Valid()) && p.id == id ==> Valid()
    {
      persons := persons[id := p];
    }

    /** `deleteFile('persons/<id>.json')`. */
    method Delete(id: Id)
      modifies this
      ensures persons == old(persons) - {id} && tree == old(tree)
      ensures old(Valid()) ==> Valid()
    {
      persons := persons - {id};
    }

    /** `readJSON('familyTree.json')`. */
    method ReadTree() returns (r: Option<FamilyTree>)
      ensures r == tree
    {
      r := tree;
    }

    /** `writeJSON('familyTree.json', t)`. */
    method WriteTree(t: FamilyTree)
      modifies this
      ensures tree == Some(t) && persons == old(persons)
      ensures Valid() == old(Valid())
    {
      tree := Some(t);
    }

    /** `deleteFile('familyTree.json')`. */
    method DeleteTree()
      modifies this
      ensures tree == None && persons == old(persons)
      ensures Valid() == old(Valid())
    {
      tree := None;
    }

    /** `listFiles('persons')`: the document names, in no particular order. */
    method ListIds() returns (ids: set<Id>)
      ensures ids == persons.Keys
    {
      ids := persons.Keys;
    }
  }
}
