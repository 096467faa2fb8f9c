/**
 * The end-to-end workflow of the API on a fresh table: create, read,
 * partially update, delete, read again.
 */
module Workflow {
  import opened Wrappers
  import opened Text
  import opened Database
  import opened Api

  const Milk: Task := Task(1, "Buy milk", None, None, "pending")

  /** `{"title": "Buy milk"}` passes create validation, with the default status. */
  lemma ValidateBuyMilk()
    ensures ValidateCreate(Obj(map["title" := JStr("Buy milk")])) == Success(NewTask("Buy milk", None, None, "pending"))
  {
    var m := map["title" := JStr("Buy milk")];
    assert Get(m, "title") == JStr("Buy milk");
    assert !IsBlank("Buy milk") by { assert !IsSpace("Buy milk"[0]); }
    assert Strip("Buy milk") == "Buy milk" by {
      assert TrimStart("Buy milk") == "Buy milk";
      assert TrimEnd("Buy milk") == "Buy milk";
    }
    assert Get(m, "description") == JNull && Get(m, "due_date") == JNull;
    assert "status" !in m;
  }

  /** Posting `{"title": "Buy milk"}` to an empty table creates task 1 with status pending. */
  lemma PostBuyMilk()
    ensures CreateTask(Empty, Obj(map["title" := JStr("Buy milk")]))
         == Response(Store(map[1 := Milk], 2), Created, TaskReply(Milk))
  {
    ValidateBuyMilk();
  }

  /** Putting `{"status": "completed"}` on task 1 changes its status and nothing else. */
  lemma PutCompleted()
    ensures UpdateTask(Store(map[1 := Milk], 2), 1, Obj(map["status" := JStr("completed")]))
         == Response(Store(map[1 := Milk.(status := "completed")], 2), Ok, TaskReply(Milk.(status := "completed")))
  {
  }

  /** Putting `{"title": "   "}`, with no status, answers 400 "Title cannot be empty" and changes nothing. */
  lemma PutBlankTitle(s: Store, id: nat)
    ensures UpdateTask(s, id, Obj(map["title" := JStr("   ")])) == Error(s, BadRequest, TitleEmptyMessage)
  {
  }

  /**
   * The whole workflow: the created task reads back as created, the update
   * keeps its title, the delete succeeds and a later read answers 404.
   */
  lemma BuyMilk()
    ensures
      var post := CreateTask(Empty, Obj(map["title" := JStr("Buy milk")]));
      var get := GetTask(post.store, 1);
      var put := UpdateTask(post.store, 1, Obj(map["status" := JStr("completed")]));
      var del := DeleteTask(put.store, 1);
      && post.code == Created && post.reply == TaskReply(Task(1, "Buy milk", None, None, "pending"))
      && get == Response(post.store, Ok, post.reply)
      && put.code == Ok && put.reply == TaskReply(Task(1, "Buy milk", None, None, "completed"))
      && del.code == Ok
      && GetTask(del.store, 1).code == NotFound
  {
    PostBuyMilk();
    PutCompleted();
  }
}
