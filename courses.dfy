/** A catalog course row. The page compares rows by object identity
    (`includes`, `!==`), so a course is a class instance and Dafny's reference
    equality plays the part of JavaScript's. Course content is never mutated,
    hence every field is a `const`. */
module Courses {

  class Course {
    /** 開課序號 (course section number) as produced by `toString()`; the key of the tag index. */
    const serial: string
    /** 中文課程名稱 and 英文課程名稱 (Chinese and English course names). */
    const chineseName: string
    const englishName: string
    /** 系所 (department), 學分 (credits), 教師 (instructor). */
    const department: string
    const credits: int
    const instructor: string
    /** 地點時間: the free-text meeting time and location, e.g. "M 3 4 Bldg-101". */
    const meeting: string

    constructor (serial: string, chineseName: string, englishName: string, department: string,
                 credits: int, instructor: string, meeting: string)
      ensures this.serial == serial && this.meeting == meeting
      ensures this.chineseName == chineseName && this.englishName == englishName
      ensures this.department == department && this.credits == credits && this.instructor == instructor
    {
      this.serial := serial;
      this.chineseName := chineseName;
      this.englishName := englishName;
      this.department := department;
      this.credits := credits;
      this.instructor := instructor;
      this.meeting := meeting;
    }
  }

  /** The tag-index keys of a list of rows, `course.開課序號.toString()` for each. */
  function Serials(courses: seq<Course>): (ids: seq<string>)
    ensures |ids| == |courses|
    ensures forall i :: 0 <= i < |courses| ==> ids[i] == courses[i].serial
  {
    seq(|courses|, i requires 0 <= i < |courses| => courses[i].serial)
  }
}
